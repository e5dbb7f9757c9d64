/** The conformance matrix: result columns joined into one row per check, and what
    the rows say about the columns that ran. */
module Aggregate {
  import opened Bytes

  const STATUSES: set<string> := {"ok", "unavailable", "errored", "not-run"}

  datatype Check = Check(givenKey: Option<string>, name: string, outcome: string)

  datatype Column = Column(declared: Option<string>, results: seq<Check>)

  datatype Row = Row(key: string, name: string, cells: seq<Option<Check>>, compared: seq<nat>)

  datatype Matrix = Matrix(columns: seq<Column>, rows: seq<Row>)

  function Key(c: Check): (k: string) {
    if c.givenKey.Some? then c.givenKey.value else c.name
  }

  function Status(c: Column): (s: string) {
    if c.declared.Some? && c.declared.value in STATUSES then c.declared.value
    else if c.results != [] then "ok"
    else "not-run"
  }

  predicate Ran(c: Column) {
    Status(c) == "ok"
  }

  predicate Has(results: seq<Check>, key: string) {
    exists i | 0 <= i < |results| :: Key(results[i]) == key
  }

  /** A result is joined on the key it was given, or on its name if it was given none. */
  lemma JoinedOn(results: seq<Check>, key: string)
    ensures Has(results, key) <==>
            exists c :: c in results && (c.givenKey == Some(key) || (c.givenKey == None && c.name == key))
  {
    if c :| c in results && (c.givenKey == Some(key) || (c.givenKey == None && c.name == key)) {
      var i :| 0 <= i < |results| && results[i] == c;
      assert Key(results[i]) == key;
    }
  }

  /** A column's results by key, a later one replacing an earlier one. */
  function Lookup(results: seq<Check>): (m: map<string, Check>)
    ensures forall k :: k in m <==> Has(results, k)
  {
    if results == [] then map[]
    else
      var last := results[|results| - 1];
      Lookup(results[..|results| - 1])[Key(last) := last]
  }

  function Cell(c: Column, key: string): (r: Option<Check>) {
    var m := Lookup(c.results);
    if key in m then Some(m[key]) else None
  }

  function Outcome(cell: Option<Check>): (s: string) {
    if cell.Some? then cell.value.outcome else "-"
  }

  /** The columns that are compared, by position. */
  function Compared(columns: seq<Column>): (s: seq<nat>)
    ensures forall p | 0 <= p < |s| :: s[p] < |columns|
  {
    if columns == [] then []
    else
      var n := |columns| - 1;
      Compared(columns[..n]) + if Ran(columns[n]) then [n] else []
  }

  // ---- joining --------------------------------------------------------------

  /** `results` without those whose key came before. */
  function Firsts(results: seq<Check>): (s: seq<Check>) {
    if results == [] then []
    else
      var init, last := results[..|results| - 1], results[|results| - 1];
      Firsts(init) + if Has(init, Key(last)) then [] else [last]
  }

  function Joined(columns: seq<Column>): (s: seq<Check>) {
    if columns == [] then [] else Joined(columns[..|columns| - 1]) + columns[|columns| - 1].results
  }

  function RowOf(columns: seq<Column>, first: Check): (r: Row) {
    Row(Key(first), first.name, seq(|columns|, i requires 0 <= i < |columns| => Cell(columns[i], Key(first))),
        Compared(columns))
  }

  function RowsOf(columns: seq<Column>, firsts: seq<Check>): (rows: seq<Row>) {
    seq(|firsts|, i requires 0 <= i < |firsts| => RowOf(columns, firsts[i]))
  }

  function MatrixOf(columns: seq<Column>): (m: Matrix) {
    Matrix(columns, RowsOf(columns, Firsts(Joined(columns))))
  }

  /** The rows of `MatrixOf`, found by walking every result of every column. */
  method Build(columns: seq<Column>) returns (m: Matrix)
    ensures m == MatrixOf(columns)
  {
    NothingYet(columns);
    hide RowOf, Lookup, Compared, Has, Firsts, Key;
    var rows: seq<Row> := [];
    var seen: set<string> := {};
    ghost var done: seq<Check> := [];
    for c := 0 to |columns|
      invariant done == Joined(columns[..c])
      invariant rows == RowsOf(columns, Firsts(done)) && seen == Lookup(done).Keys
    {
      var results := columns[c].results;
      ghost var before := done;
      assert columns[..c + 1][..c] == columns[..c];
      for j := 0 to |results|
        invariant done == before + results[..j]
        invariant rows == RowsOf(columns, Firsts(done)) && seen == Lookup(done).Keys
      {
        var key := Key(results[j]);
        FirstsStep(done, results[j]);
        if key !in seen {
          seen := seen + {key};
          rows := rows + [RowOf(columns, results[j])];
        }
        assert results[..j + 1] == results[..j] + [results[j]];
        done := done + [results[j]];
      }
      assert results[..|results|] == results;
    }
    assert columns[..|columns|] == columns;
    m := Matrix(columns, rows);
  }

  /** Every row of a built matrix is aligned with its columns, and its cells are
      each column's last word on the key. */
  lemma CellsAligned(columns: seq<Column>, r: Row, i: nat)
    requires r in MatrixOf(columns).rows && i < |columns|
    ensures RowsFor(MatrixOf(columns).rows, columns)
    ensures r.cells[i].None? <==> !Has(columns[i].results, r.key)
    ensures r.cells[i].Some? ==>
              exists j: nat :: LastAt(columns[i].results, j, r.key) && columns[i].results[j] == r.cells[i].value
  {
    LookupIsLast(columns[i].results, r.key);
    hide Has, Lookup, Key, Compared;
  }

  /** `results[j]` is the last with its key. */
  predicate LastAt(results: seq<Check>, j: nat, key: string) {
    && j < |results| && Key(results[j]) == key
    && forall l | j < l < |results| :: Key(results[l]) != key
  }

  lemma {:induction false} LookupIsLast(results: seq<Check>, key: string)
    ensures key in Lookup(results) ==> exists j: nat :: LastAt(results, j, key) && results[j] == Lookup(results)[key]
  {
    hide Has;
    if key in Lookup(results) {
      var n := |results| - 1;
      assert results != [] by { assert Lookup([]) == map[]; }
      if Key(results[n]) == key {
        assert LastAt(results, n, key);
      } else {
        assert key in Lookup(results[..n]);
        LookupIsLast(results[..n], key);
        var j: nat :| LastAt(results[..n], j, key) && results[..n][j] == Lookup(results[..n])[key];
        LastOneMore(results, j, key);
      }
    }
  }

  lemma LastOneMore(results: seq<Check>, j: nat, key: string)
    requires results != [] && LastAt(results[..|results| - 1], j, key) && Key(results[|results| - 1]) != key
    ensures LastAt(results, j, key)
  {
    hide Key;
    var n := |results| - 1;
    forall l | j < l < |results| ensures Key(results[l]) != key {
      if l < n {
        assert results[..n][l] == results[l];
      }
    }
  }

  lemma NothingYet(columns: seq<Column>)
    ensures columns[..0] == [] && Joined([]) == [] && RowsOf(columns, Firsts([])) == [] && Lookup([]) == map[]
  {
  }

  lemma FirstsStep(done: seq<Check>, c: Check)
    ensures Firsts(done + [c]) == Firsts(done) + if Has(done, Key(c)) then [] else [c]
    ensures Lookup(done + [c]).Keys == Lookup(done).Keys + {Key(c)}
  {
    assert (done + [c])[..|done|] == done;
    hide Has;
  }

  /** `results[at]` is the first with its key. */
  predicate FirstAt(results: seq<Check>, at: nat) {
    at < |results| && forall i | 0 <= i < at :: Key(results[i]) != Key(results[at])
  }

  function Positions(results: seq<Check>): (ps: seq<nat>) {
    if results == [] then []
    else
      var n := |results| - 1;
      Positions(results[..n]) + if FirstAt(results, n) then [n] else []
  }

  predicate Increasing(ps: seq<nat>, bound: nat) {
    (forall p | 0 <= p < |ps| :: ps[p] < bound) && forall p, q | 0 <= p < q < |ps| :: ps[p] < ps[q]
  }

  /** `fs` are the results at `ps`, which are the first with their keys. */
  ghost predicate Heads(results: seq<Check>, fs: seq<Check>, ps: seq<nat>) {
    && Increasing(ps, |results|) && |fs| == |ps|
    && (forall p | 0 <= p < |ps| :: fs[p] == results[ps[p]])
    && forall i: nat :: i in ps <==> FirstAt(results, i)
  }

  lemma FirstAtPrefix(init: seq<Check>, c: Check, at: nat)
    requires at < |init|
    ensures FirstAt(init + [c], at) <==> FirstAt(init, at)
  {
    assert forall i | 0 <= i < |init| :: (init + [c])[i] == init[i];
  }

  lemma HeadsStep(init: seq<Check>, c: Check, fs: seq<Check>, ps: seq<nat>)
    requires Heads(init, fs, ps)
    ensures if FirstAt(init + [c], |init|) then Heads(init + [c], fs + [c], ps + [|init|])
        else Heads(init + [c], fs, ps)
    ensures FirstAt(init + [c], |init|) <==> !Has(init, Key(c))
  {
    hide Key;
    var results := init + [c];
    forall i: nat | i < |init| ensures FirstAt(results, i) <==> FirstAt(init, i) {
      FirstAtPrefix(init, c, i);
    }
    if i: nat :| i < |init| && Key(init[i]) == Key(c) {
      assert Key(results[i]) == Key(c);
    }
    if !FirstAt(results, |init|) {
      var i :| 0 <= i < |init| && Key(results[i]) == Key(c);
      assert Key(init[i]) == Key(c);
    }
  }

  /** The rows are headed by the first results with their keys, in source order. */
  lemma {:induction false} FirstsInOrder(results: seq<Check>)
    ensures Heads(results, Firsts(results), Positions(results))
  {
    if results != [] {
      var n := |results| - 1;
      var init, c := results[..n], results[n];
      assert results == init + [c];
      FirstsInOrder(init);
      HeadsStep(init, c, Firsts(init), Positions(init));
      hide Heads, FirstAt, Has, Key;
    }
  }

  /** A row is called after the first result with its key. */
  lemma RowNamed(columns: seq<Column>, p: nat) returns (at: nat)
    requires p < |MatrixOf(columns).rows|
    ensures var r, results := MatrixOf(columns).rows[p], Joined(columns);
            FirstAt(results, at) && Key(results[at]) == r.key && results[at].name == r.name
  {
    var results := Joined(columns);
    FirstsInOrder(results);
    at := Positions(results)[p];
    hide Joined, Firsts, Positions, Key, FirstAt;
    assert at in Positions(results);
    assert MatrixOf(columns).rows[p] == RowOf(columns, results[at]);
  }

  /** No two rows have the same key. */
  lemma RowsAreDistinct(columns: seq<Column>, p: nat, q: nat)
    requires var rows := MatrixOf(columns).rows; p < |rows| && q < |rows| && rows[p].key == rows[q].key
    ensures p == q
  {
    var results := Joined(columns);
    FirstsInOrder(results);
    var ps := Positions(results);
    hide Joined, Firsts, Positions, Key;
    assert FirstAt(results, ps[p]) && FirstAt(results, ps[q]);
  }

  /** There is a row for every key that some column has, and for no other. */
  lemma RowForEachKey(columns: seq<Column>, key: string)
    ensures HasRow(columns, key) <==> exists i :: 0 <= i < |columns| && Cell(columns[i], key).Some?
  {
    JoinedHas(columns, key);
    FirstsHave(Joined(columns), key);
  }

  predicate HasRow(columns: seq<Column>, key: string) {
    Has(Firsts(Joined(columns)), key)
  }

  lemma {:induction false} FirstsHave(results: seq<Check>, key: string)
    ensures Has(Firsts(results), key) <==> Has(results, key)
  {
    if results != [] {
      hide Key;
      var n := |results| - 1;
      var init, c := results[..n], results[n];
      assert results == init + [c];
      FirstsHave(init, key);
      HasConcat(init, [c], key);
      HasConcat(Firsts(init), [c], key);
      assert Firsts(init) + [] == Firsts(init);
      assert Has([c], key) <==> Key(c) == key by { assert [c][0] == c; }
      hide Has;
    }
  }

  lemma {:induction false} JoinedHas(columns: seq<Column>, key: string)
    ensures Has(Joined(columns), key) <==> exists i :: 0 <= i < |columns| && Cell(columns[i], key).Some?
  {
    hide Has, Lookup;
    if columns == [] {
      assert !Has([], key) by { NothingHas(key); }
    } else {
      var n := |columns| - 1;
      var init := columns[..n];
      JoinedHas(init, key);
      HasConcat(Joined(init), columns[n].results, key);
      assert forall i | 0 <= i < n :: columns[i] == init[i];
      hide Joined;
      if i :| 0 <= i < n && Cell(init[i], key).Some? {
        assert Cell(columns[i], key).Some?;
      }
      if i :| 0 <= i < |columns| && Cell(columns[i], key).Some? {
        assert i == n || Cell(init[i], key).Some?;
      }
    }
  }

  lemma NothingHas(key: string)
    ensures !Has([], key)
  {
  }

  lemma HasConcat(a: seq<Check>, b: seq<Check>, key: string)
    ensures Has(a + b, key) <==> Has(a, key) || Has(b, key)
  {
    hide Key;
    if i :| 0 <= i < |a| && Key(a[i]) == key {
      assert Key((a + b)[i]) == key;
    }
    if i :| 0 <= i < |b| && Key(b[i]) == key {
      assert Key((a + b)[|a| + i]) == key;
    }
  }

  // ---- what the rows say ----------------------------------------------------

  function Answers(columns: seq<Column>, key: string): (s: seq<string>)
    ensures |s| == |Compared(columns)|
    ensures forall p | 0 <= p < |s| :: s[p] == Outcome(Cell(columns[Compared(columns)[p]], key))
  {
    if columns == [] then []
    else
      var n := |columns| - 1;
      Answers(columns[..n], key) + if Ran(columns[n]) then [Outcome(Cell(columns[n], key))] else []
  }

  predicate Aligned(r: Row) {
    forall p | 0 <= p < |r.compared| :: r.compared[p] < |r.cells|
  }

  function ComparedOutcomes(r: Row): (s: seq<string>)
    requires Aligned(r)
  {
    seq(|r.compared|, p requires 0 <= p < |r.compared| => Outcome(r.cells[r.compared[p]]))
  }

  predicate Differs(r: Row) {
    Aligned(r) && |set s | s in ComparedOutcomes(r)| > 1
  }

  predicate AllSkipped(r: Row) {
    Aligned(r) && r.compared != [] && (set s | s in ComparedOutcomes(r)) == {"SKIP"}
  }

  predicate AllFail(r: Row) {
    Aligned(r) && |r.compared| >= 2 && forall i | i in r.compared :: Outcome(r.cells[i]) == "FAIL"
  }

  predicate FailsAlone(r: Row, i: nat) {
    && Aligned(r) && i in r.compared && Outcome(r.cells[i]) == "FAIL"
    && (exists j :: j in r.compared && j != i)
    && forall j | j in r.compared && j != i :: Outcome(r.cells[j]) == "PASS"
  }

  /** Which columns are compared: those that say so, and those with results that say
      nothing valid. */
  lemma ComparedColumns(columns: seq<Column>, i: nat)
    ensures i in Compared(columns) <==>
            && i < |columns|
            && var c := columns[i];
               || c.declared == Some("ok")
               || (c.results != [] && (c.declared.None? || c.declared.value !in ["unavailable", "errored", "not-run"]))
  {
    ComparedRan(columns, i);
    if i < |columns| {
      assert Ran(columns[i]) <==>
        var c := columns[i];
        || c.declared == Some("ok")
        || (c.results != [] && (c.declared.None? || c.declared.value !in ["unavailable", "errored", "not-run"]));
    }
  }

  lemma {:induction false} ComparedRan(columns: seq<Column>, i: nat)
    ensures i in Compared(columns) <==> i < |columns| && Ran(columns[i])
    ensures Increasing(Compared(columns), |columns|)
  {
    if columns != [] {
      ComparedRan(columns[..|columns| - 1], i);
    }
  }

  /** A row differs exactly if two compared columns answered differently. */
  lemma DiffersMeans(r: Row)
    requires Aligned(r)
    ensures Differs(r) <==>
            exists p, q :: p in r.compared && q in r.compared && Outcome(r.cells[p]) != Outcome(r.cells[q])
  {
    if p, q :| p in r.compared && q in r.compared && Outcome(r.cells[p]) != Outcome(r.cells[q]) {
      TwoOutcomesDiffer(r, p, q);
    }
    if Differs(r) {
      var p, q := TwoOutcomes(r);
    }
  }

  lemma TwoOutcomesDiffer(r: Row, p: nat, q: nat)
    requires Aligned(r) && p in r.compared && q in r.compared && Outcome(r.cells[p]) != Outcome(r.cells[q])
    ensures Differs(r)
  {
    var i :| 0 <= i < |r.compared| && r.compared[i] == p;
    var j :| 0 <= j < |r.compared| && r.compared[j] == q;
    var x, y := ComparedOutcomes(r)[i], ComparedOutcomes(r)[j];
    Subset({x, y}, set s | s in ComparedOutcomes(r));
  }

  lemma TwoOutcomes(r: Row) returns (p: nat, q: nat)
    requires Aligned(r) && Differs(r)
    ensures p in r.compared && q in r.compared && Outcome(r.cells[p]) != Outcome(r.cells[q])
  {
    var all := set s | s in ComparedOutcomes(r);
    var x :| x in all;
    if all <= {x} {
      Subset(all, {x});
    }
    var y :| y in all && y != x;
    var i :| 0 <= i < |r.compared| && ComparedOutcomes(r)[i] == x;
    var j :| 0 <= j < |r.compared| && ComparedOutcomes(r)[j] == y;
    p, q := r.compared[i], r.compared[j];
  }

  /** A check fails alone in a column that compares, if it is FAIL there and PASS in every
      other of at least one; it is a failure of all if it is FAIL in each of at least two. */
  lemma FailuresMean(r: Row, i: nat)
    requires Aligned(r)
    ensures FailsAlone(r, i) <==>
            && i in r.compared && r.cells[i].Some? && r.cells[i].value.outcome == "FAIL"
            && (exists j :: j in r.compared && j != i)
            && forall j | j in r.compared && j != i :: r.cells[j].Some? && r.cells[j].value.outcome == "PASS"
    ensures AllFail(r) <==>
            |r.compared| > 1 && forall j | j in r.compared :: r.cells[j].Some? && r.cells[j].value.outcome == "FAIL"
  {
    DashIsNoVerdict();
    hide Outcome;
  }

  lemma DashIsNoVerdict()
    ensures forall cell :: Outcome(cell) == "FAIL" <==> cell.Some? && cell.value.outcome == "FAIL"
    ensures forall cell :: Outcome(cell) == "PASS" <==> cell.Some? && cell.value.outcome == "PASS"
    ensures Outcome(None) == "-"
  {
  }

  /** A row is skipped by all exactly if there are compared columns and each says SKIP. */
  lemma SkippedMeans(r: Row)
    requires Aligned(r)
    ensures AllSkipped(r) <==> r.compared != [] && forall p | p in r.compared :: Outcome(r.cells[p]) == "SKIP"
  {
    var all := set s | s in ComparedOutcomes(r);
    if AllSkipped(r) {
      forall p | p in r.compared ensures Outcome(r.cells[p]) == "SKIP" {
        var i :| 0 <= i < |r.compared| && r.compared[i] == p;
        assert ComparedOutcomes(r)[i] in all;
      }
    }
    if r.compared != [] && forall p | p in r.compared :: Outcome(r.cells[p]) == "SKIP" {
      assert forall i | 0 <= i < |r.compared| :: r.compared[i] in r.compared;
      assert ComparedOutcomes(r)[0] == "SKIP";
      assert all == {"SKIP"};
    }
  }

  /** A unique failure is a disagreement and blamed on one column only. */
  lemma UniqueFailureDiffers(r: Row, i: nat)
    requires FailsAlone(r, i)
    ensures Differs(r) && !AllFail(r) && !AllSkipped(r)
    ensures forall j: nat | FailsAlone(r, j) :: j == i
  {
    var all := set s | s in ComparedOutcomes(r);
    var j :| j in r.compared && j != i;
    var p, q :| 0 <= p < |r.compared| && 0 <= q < |r.compared| && r.compared[p] == i && r.compared[q] == j;
    assert ComparedOutcomes(r)[p] == "FAIL" && ComparedOutcomes(r)[q] == "PASS";
    Subset({"FAIL", "PASS"}, all);
  }

  /** A failure or a skip that every column shares is never a disagreement. */
  lemma SharedIsNoDisagreement(r: Row)
    ensures AllFail(r) ==> !Differs(r) && !AllSkipped(r)
    ensures AllSkipped(r) ==> !Differs(r)
  {
    if AllFail(r) {
      assert ComparedOutcomes(r)[0] == "FAIL";
      assert (set s | s in ComparedOutcomes(r)) == {"FAIL"};
    }
  }

  lemma {:induction false} Subset<T>(a: set<T>, b: set<T>)
    requires a <= b
    ensures |a| <= |b|
  {
    if a != {} {
      var x :| x in a;
      Subset(a - {x}, b - {x});
    }
  }

  /** Rows as `build` makes them, for these columns. */
  predicate RowsFor(rows: seq<Row>, columns: seq<Column>) {
    forall r | r in rows :: |r.cells| == |columns| && r.compared == Compared(columns)
  }

  function OnlyBy(rows: seq<Row>, i: nat): (s: seq<Row>)
    ensures forall r :: r in s <==> r in rows && FailsAlone(r, i)
  {
    if rows == [] then []
    else
      var n := |rows| - 1;
      OnlyBy(rows[..n], i) + if FailsAlone(rows[n], i) then [rows[n]] else []
  }

  /** The rows column `i` fails and all of the others pass. */
  method FailedOnlyBy(rows: seq<Row>, columns: seq<Column>, compared: seq<nat>, i: nat) returns (s: seq<Row>)
    requires RowsFor(rows, columns) && compared == Compared(columns)
    requires i in compared && exists j :: j in compared && j != i
    ensures s == OnlyBy(rows, i)
  {
    s := [];
    for k := 0 to |rows|
      invariant s == OnlyBy(rows[..k], i)
    {
      var r := rows[k];
      assert r in rows;
      assert rows[..k + 1][..k] == rows[..k];
      if Outcome(r.cells[i]) == "FAIL" && forall j | j in compared && j != i :: Outcome(r.cells[j]) == "PASS" {
        s := s + [r];
      }
    }
    assert rows[..|rows|] == rows;
  }

  /** `OnlyBy` for every column that has such rows. */
  method UniqueFailuresByColumn(m: Matrix) returns (found: map<nat, seq<Row>>)
    requires RowsFor(m.rows, m.columns)
    ensures forall i: nat :: i in found <==> OnlyBy(m.rows, i) != []
    ensures forall i | i in found :: found[i] == OnlyBy(m.rows, i)
  {
    hide OnlyBy, Compared, FailsAlone, RowsFor;
    found := map[];
    var compared := Compared(m.columns);
    for p := 0 to |compared|
      invariant forall i: nat :: i in found <==> i in compared[..p] && OnlyBy(m.rows, i) != []
      invariant forall i | i in found :: found[i] == OnlyBy(m.rows, i)
    {
      var i := compared[p];
      if exists j | j in compared :: j != i {
        var rows := FailedOnlyBy(m.rows, m.columns, compared, i);
        if rows != [] {
          found := found[i := rows];
        }
      } else {
        NobodyElse(m.rows, m.columns, i);
      }
    }
    NotCompared(m.rows, m.columns);
  }

  lemma NobodyElse(rows: seq<Row>, columns: seq<Column>, i: nat)
    requires RowsFor(rows, columns) && forall j | j in Compared(columns) :: j == i
    ensures OnlyBy(rows, i) == []
  {
    hide OnlyBy, Compared;
    if OnlyBy(rows, i) != [] {
      assert FailsAlone(OnlyBy(rows, i)[0], i);
    }
  }

  lemma NotCompared(rows: seq<Row>, columns: seq<Column>)
    requires RowsFor(rows, columns)
    ensures forall i: nat | OnlyBy(rows, i) != [] :: i in Compared(columns)
  {
    hide OnlyBy, Compared;
    forall i: nat | OnlyBy(rows, i) != [] ensures i in Compared(columns) {
      assert FailsAlone(OnlyBy(rows, i)[0], i);
    }
  }

  // ---- a column that did not run --------------------------------------------

  function Insert(columns: seq<Column>, at: nat, c: Column): (r: seq<Column>)
    requires at <= |columns|
  {
    columns[..at] + [c] + columns[at..]
  }

  /** Where a position lands when something is inserted at `at`. */
  function Shift(at: nat, i: nat): (j: nat) {
    if i < at then i else i + 1
  }

  /** What the compared columns answer, as a row sees it. */
  lemma RowAnswers(columns: seq<Column>, first: Check)
    ensures var r, a := RowOf(columns, first), Answers(columns, Key(first));
            && Aligned(r) && r.compared == Compared(columns)
            && forall p | 0 <= p < |a| :: a[p] == Outcome(r.cells[r.compared[p]])
  {
  }

  /** `more` compares the same columns as `columns`, moved past `at`, and hears the same. */
  ghost predicate SameAnswers(columns: seq<Column>, more: seq<Column>, at: nat, key: string) {
    && Answers(more, key) == Answers(columns, key)
    && |more| == |columns| + 1 && |Compared(more)| == |Compared(columns)|
    && forall p | 0 <= p < |Compared(columns)| :: Compared(more)[p] == Shift(at, Compared(columns)[p])
  }

  lemma SameStep(columns: seq<Column>, more: seq<Column>, at: nat, key: string, c: Column)
    requires SameAnswers(columns, more, at, key) && at <= |columns|
    ensures SameAnswers(columns + [c], more + [c], at, key)
  {
    OneMore(columns, c, key);
    OneMore(more, c, key);
    hide Answers, Compared;
  }

  /** The compared columns and their answers before and after an insertion. */
  lemma {:induction false} DeadColumn(columns: seq<Column>, at: nat, dead: Column, key: string)
    requires at <= |columns| && !Ran(dead)
    ensures SameAnswers(columns, Insert(columns, at, dead), at, key)
  {
    hide SameAnswers;
    if at == |columns| {
      DeadLast(columns, dead, key);
    } else {
      var n := |columns| - 1;
      InsertBefore(columns, at, dead);
      DeadColumn(columns[..n], at, dead, key);
      hide Insert;
      SameStep(columns[..n], Insert(columns[..n], at, dead), at, key, columns[n]);
    }
  }

  lemma DeadLast(columns: seq<Column>, dead: Column, key: string)
    requires !Ran(dead)
    ensures SameAnswers(columns, Insert(columns, |columns|, dead), |columns|, key)
  {
    assert Insert(columns, |columns|, dead) == columns + [dead];
    OneMore(columns, dead, key);
    hide Answers, Compared;
    assert Compared(columns) + [] == Compared(columns) && Answers(columns, key) + [] == Answers(columns, key);
  }

  lemma InsertBefore(columns: seq<Column>, at: nat, c: Column)
    requires at < |columns|
    ensures var n := |columns| - 1;
            columns == columns[..n] + [columns[n]]
                && Insert(columns, at, c) == Insert(columns[..n], at, c) + [columns[n]]
  {
  }

  lemma OneMore(columns: seq<Column>, c: Column, key: string)
    ensures Compared(columns + [c]) == Compared(columns) + if Ran(c) then [|columns|] else []
    ensures Answers(columns + [c], key) == Answers(columns, key) + if Ran(c) then [Outcome(Cell(c, key))] else []
  {
    assert (columns + [c])[..|columns|] == columns;
  }

  function Disagreeing(m: Matrix): (s: set<string>) {
    set r | r in m.rows && Differs(r) :: r.key
  }

  function Skipped(m: Matrix): (s: set<string>) {
    set r | r in m.rows && AllSkipped(r) :: r.key
  }

  function SharedFailing(m: Matrix): (s: set<string>) {
    set r | r in m.rows && AllFail(r) :: r.key
  }

  function UniquelyFailing(m: Matrix, i: nat): (s: set<string>) {
    set r | r in m.rows && FailsAlone(r, i) :: r.key
  }

  /** Two rows whose compared columns answer the same, one column further on past `at`. */
  ghost predicate Twins(r: Row, t: Row, at: nat) {
    && Aligned(r) && Aligned(t) && |t.compared| == |r.compared|
    && forall p | 0 <= p < |r.compared| ::
         t.compared[p] == Shift(at, r.compared[p]) && Outcome(t.cells[t.compared[p]]) == Outcome(r.cells[r.compared[p]])
  }

  lemma TwinsAgree(r: Row, t: Row, at: nat)
    requires Twins(r, t, at)
    ensures Differs(t) == Differs(r) && AllSkipped(t) == AllSkipped(r) && AllFail(t) == AllFail(r)
  {
    assert ComparedOutcomes(t) == ComparedOutcomes(r);
    assert t.compared == [] <==> r.compared == [];
    if AllFail(r) {
      forall i | i in t.compared ensures Outcome(t.cells[i]) == "FAIL" {
        var p :| 0 <= p < |t.compared| && t.compared[p] == i;
        assert r.compared[p] in r.compared;
      }
    }
    if AllFail(t) {
      forall i | i in r.compared ensures Outcome(r.cells[i]) == "FAIL" {
        var p :| 0 <= p < |r.compared| && r.compared[p] == i;
        assert t.compared[p] in t.compared;
      }
    }
  }

  /** Column `k` of `r` is column `Shift(at, k)` of `t`, in the comparison and in its answer. */
  lemma TwinColumns(r: Row, t: Row, at: nat, k: nat)
    requires Twins(r, t, at)
    ensures Shift(at, k) in t.compared <==> k in r.compared
    ensures k in r.compared ==> Outcome(t.cells[Shift(at, k)]) == Outcome(r.cells[k])
    ensures at !in t.compared
  {
    if k in r.compared {
      var p :| 0 <= p < |r.compared| && r.compared[p] == k;
      assert t.compared[p] in t.compared;
    }
    if Shift(at, k) in t.compared {
      var p :| 0 <= p < |t.compared| && t.compared[p] == Shift(at, k);
      assert r.compared[p] in r.compared;
    }
  }

  /** And every compared column of `t` is one of those. */
  lemma TwinSource(r: Row, t: Row, at: nat, j: nat) returns (k: nat)
    requires Twins(r, t, at) && j in t.compared
    ensures k in r.compared && j == Shift(at, k)
  {
    var p :| 0 <= p < |t.compared| && t.compared[p] == j;
    k := r.compared[p];
  }

  lemma TwinsFailAlone(r: Row, t: Row, at: nat, i: nat)
    requires Twins(r, t, at)
    ensures FailsAlone(t, Shift(at, i)) <==> FailsAlone(r, i)
    ensures !FailsAlone(t, at)
  {
    TwinColumns(r, t, at, at);
    if FailsAlone(r, i) {
      AloneInTwin(r, t, at, i);
    }
    if FailsAlone(t, Shift(at, i)) {
      AloneInSource(r, t, at, i);
    }
  }

  lemma AloneInTwin(r: Row, t: Row, at: nat, i: nat)
    requires Twins(r, t, at) && FailsAlone(r, i)
    ensures FailsAlone(t, Shift(at, i))
  {
    TwinColumns(r, t, at, i);
    forall j | j in t.compared && j != Shift(at, i) ensures Outcome(t.cells[j]) == "PASS" {
      var k := TwinSource(r, t, at, j);
      TwinColumns(r, t, at, k);
    }
    var k :| k in r.compared && k != i;
    TwinColumns(r, t, at, k);
    assert Shift(at, k) in t.compared;
    hide Twins;
  }

  lemma AloneInSource(r: Row, t: Row, at: nat, i: nat)
    requires Twins(r, t, at) && FailsAlone(t, Shift(at, i))
    ensures FailsAlone(r, i)
  {
    TwinColumns(r, t, at, i);
    forall k | k in r.compared && k != i ensures Outcome(r.cells[k]) == "PASS" {
      TwinColumns(r, t, at, k);
    }
    var j :| j in t.compared && j != Shift(at, i);
    var k := TwinSource(r, t, at, j);
    assert k in r.compared && k != i;
    hide Twins;
  }

  ghost predicate Silent(r: Row) {
    !Differs(r) && !AllSkipped(r) && !AllFail(r) && forall i: nat :: !FailsAlone(r, i)
  }

  /** A row that no compared column answers says nothing. */
  lemma SilentRow(r: Row)
    requires Aligned(r) && forall i | i in r.compared :: Outcome(r.cells[i]) == "-"
    ensures Silent(r)
  {
    var all := set s | s in ComparedOutcomes(r);
    assert all <= {"-"} && "SKIP" !in all;
    Subset(all, {"-"});
    assert r.compared != [] ==> r.compared[0] in r.compared;
  }

  /** The rows of two matrices for one key, when `more` has a dead column at `at`. */
  lemma TwinRows(columns: seq<Column>, at: nat, dead: Column, first: Check, other: Check)
    requires at <= |columns| && !Ran(dead) && Key(first) == Key(other)
    ensures Twins(RowOf(columns, first), RowOf(Insert(columns, at, dead), other), at)
  {
    var more := Insert(columns, at, dead);
    DeadColumn(columns, at, dead, Key(first));
    RowAnswers(columns, first);
    RowAnswers(more, other);
    hide Answers, Compared, RowOf, Insert;
  }

  /** A row for a key no column of `columns` has is silent. */
  lemma StrangeRow(columns: seq<Column>, at: nat, dead: Column, other: Check)
    requires at <= |columns| && !Ran(dead) && !HasRow(columns, Key(other))
    ensures Silent(RowOf(Insert(columns, at, dead), other))
  {
    var r, t := RowOf(columns, other), RowOf(Insert(columns, at, dead), other);
    TwinRows(columns, at, dead, other, other);
    RowForEachKey(columns, Key(other));
    hide HasRow;
    SilentRow(r);
    TwinsAgree(r, t, at);
    forall i: nat ensures !FailsAlone(t, i) {
      if i == at {
        TwinsFailAlone(r, t, at, i);
      } else {
        TwinsFailAlone(r, t, at, if i < at then i else i - 1);
      }
    }
  }

  lemma RowThere(columns: seq<Column>, at: nat, dead: Column, r: Row) returns (t: Row)
    requires at <= |columns| && !Ran(dead) && r in MatrixOf(columns).rows
    ensures t in MatrixOf(Insert(columns, at, dead)).rows && t.key == r.key && Twins(r, t, at)
  {
    var more := Insert(columns, at, dead);
    var firsts, others := Firsts(Joined(columns)), Firsts(Joined(more));
    var p :| 0 <= p < |firsts| && r == RowOf(columns, firsts[p]);
    assert HasRow(columns, r.key) by {
      assert Key(firsts[p]) == r.key;
    }
    RowForEachKey(columns, r.key);
    RowForEachKey(more, r.key);
    KeptCell(columns, at, dead, r.key);
    var q :| 0 <= q < |others| && Key(others[q]) == r.key;
    TwinRows(columns, at, dead, firsts[p], others[q]);
    t := RowOf(more, others[q]);
    assert MatrixOf(more).rows[q] == t;
  }

  lemma KeptCell(columns: seq<Column>, at: nat, dead: Column, key: string)
    requires at <= |columns|
    ensures var more := Insert(columns, at, dead);
            (exists i :: 0 <= i < |columns| && Cell(columns[i], key).Some?) ==>
              exists i :: 0 <= i < |more| && Cell(more[i], key).Some?
  {
    hide Cell;
    if i :| 0 <= i < |columns| && Cell(columns[i], key).Some? {
      assert Insert(columns, at, dead)[Shift(at, i)] == columns[i];
    }
  }

  lemma RowBack(columns: seq<Column>, at: nat, dead: Column, t: Row)
    requires at <= |columns| && !Ran(dead) && t in MatrixOf(Insert(columns, at, dead)).rows
    ensures Silent(t) || exists r :: r in MatrixOf(columns).rows && r.key == t.key && Twins(r, t, at)
  {
    var more := Insert(columns, at, dead);
    var firsts, others := Firsts(Joined(columns)), Firsts(Joined(more));
    var q :| 0 <= q < |others| && t == RowOf(more, others[q]);
    if HasRow(columns, t.key) {
      var p :| 0 <= p < |firsts| && Key(firsts[p]) == t.key;
      TwinRows(columns, at, dead, firsts[p], others[q]);
      assert MatrixOf(columns).rows[p] == RowOf(columns, firsts[p]);
    } else {
      StrangeRow(columns, at, dead, others[q]);
    }
  }

  /** A column that is not ok, put anywhere, with results or without, leaves what
      the matrix reports as it was: only column numbers move. */
  lemma DeadColumnLaw(columns: seq<Column>, at: nat, dead: Column)
    requires at <= |columns| && !Ran(dead)
    ensures var m, k := MatrixOf(columns), MatrixOf(Insert(columns, at, dead));
            && Disagreeing(k) == Disagreeing(m) && Skipped(k) == Skipped(m) && SharedFailing(k) == SharedFailing(m)
            && UniquelyFailing(k, at) == {}
            && forall i: nat :: UniquelyFailing(k, Shift(at, i)) == UniquelyFailing(m, i)
  {
    var m, k := MatrixOf(columns), MatrixOf(Insert(columns, at, dead));
    hide MatrixOf, Differs, AllSkipped, AllFail, FailsAlone, Insert, Twins;
    forall r | r in m.rows
      ensures exists t :: t in k.rows && t.key == r.key && Alike(r, t, at)
    {
      var t := RowThere(columns, at, dead, r);
      TwinsAlike(r, t, at);
    }
    forall t | t in k.rows
      ensures Silent(t) || exists r :: r in m.rows && r.key == t.key && Alike(r, t, at)
    {
      RowBack(columns, at, dead, t);
      if r :| r in m.rows && r.key == t.key && Twins(r, t, at) {
        TwinsAlike(r, t, at);
      }
    }
    AlikeKeys(m, k, at);
  }

  ghost predicate Alike(r: Row, t: Row, at: nat) {
    && Differs(t) == Differs(r) && AllSkipped(t) == AllSkipped(r) && AllFail(t) == AllFail(r)
    && !FailsAlone(t, at) && forall i: nat :: FailsAlone(t, Shift(at, i)) == FailsAlone(r, i)
  }

  lemma TwinsAlike(r: Row, t: Row, at: nat)
    requires Twins(r, t, at)
    ensures Alike(r, t, at)
  {
    TwinsAgree(r, t, at);
    forall i: nat ensures FailsAlone(t, Shift(at, i)) == FailsAlone(r, i) && !FailsAlone(t, at) {
      TwinsFailAlone(r, t, at, i);
    }
  }

  lemma AlikeKeys(m: Matrix, k: Matrix, at: nat)
    requires forall r | r in m.rows :: exists t :: t in k.rows && t.key == r.key && Alike(r, t, at)
    requires forall t | t in k.rows :: Silent(t) || exists r :: r in m.rows && r.key == t.key && Alike(r, t, at)
    ensures Disagreeing(k) == Disagreeing(m) && Skipped(k) == Skipped(m) && SharedFailing(k) == SharedFailing(m)
    ensures UniquelyFailing(k, at) == {}
    ensures forall i: nat :: UniquelyFailing(k, Shift(at, i)) == UniquelyFailing(m, i)
  {
    hide Differs, AllSkipped, AllFail, FailsAlone;
    forall i: nat ensures UniquelyFailing(k, Shift(at, i)) == UniquelyFailing(m, i) {
    }
  }
}
