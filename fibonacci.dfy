/** The dynamic-programming visualizer's trace generator: Fibonacci numbers by
    tabulation in a two-row table of `n + 1` columns. Row 0 is filled left to
    right from the two base cases; row 1 is never written. A snapshot of the
    table is recorded after the initialisation, after each base case, after
    each filled cell and at the end. */
module DynamicProgramming {
  import opened Optional
  import opened Text

  /** A table cell; `None` is the `null` of an unfilled cell. */
  type Cell = Option<nat>

  /** A snapshot: the table, the highlighted cell (row, column) and the text. */
  datatype Step = Step(table: seq<seq<Cell>>, currentCell: Option<(nat, nat)>, description: string)

  /** The page's instance: F(10). */
  const SampleN: nat := 10

  const InitialText := "Initialize empty table for Fibonacci sequence"
  const BaseZeroText := "Base case: F(0) = 0"
  const BaseOneText := "Base case: F(1) = 1"

  function Fib(i: nat): nat {
    if i < 2 then i else Fib(i - 1) + Fib(i - 2)
  }

  /** The table once cells `0 .. filled - 1` of row 0 hold their Fibonacci
      numbers: the rest of row 0 and all of row 1 are null. */
  function TableUpTo(n: nat, filled: nat): (t: seq<seq<Cell>>)
    ensures |t| == 2 && |t[0]| == n + 1 && |t[1]| == n + 1
    ensures forall c :: 0 <= c <= n ==> t[0][c] == (if c < filled then Some(Fib(c)) else None)
    ensures forall c :: 0 <= c <= n ==> t[1][c] == None
  {
    [seq(n + 1, c => if 0 <= c < filled then Some(Fib(c)) else None), seq(n + 1, c => None)]
  }

  /** The text of the step that fills cell `i`, as the page renders it:
      `F(i) = F(i-1) + F(i-2) = a + b = c`. */
  function FillText(i: nat, a: nat, b: nat, c: nat): string
    requires i >= 2
  {
    "F(" + NatToString(i) + ") = F(" + NatToString(i - 1) + ") + F(" + NatToString(i - 2) + ") = "
      + NatToString(a) + " + " + NatToString(b) + " = " + NatToString(c)
  }

  function FinalText(n: nat, value: nat): string {
    "Complete! F(" + NatToString(n) + ") = " + NatToString(value)
  }

  /** The step that fills cell `i`. */
  function FillStep(n: nat, i: nat): Step
    requires 2 <= i
  {
    Step(TableUpTo(n, i + 1), Some((0, i)), FillText(i, Fib(i - 1), Fib(i - 2), Fib(i)))
  }

  /** The reference trace for `n`: the empty table, the two base cases (both
      shown after both cells are written), one step per filled cell, and the
      complete table. */
  function FibTrace(n: nat): (t: seq<Step>)
    requires n >= 1
    ensures |t| == n + 3
    ensures forall k :: 0 <= k < |t| ==>
      |t[k].table| == 2 && |t[k].table[0]| == n + 1 && |t[k].table[1]| == n + 1
  {
    Opening(n)
    + seq(n - 1, j requires 0 <= j < n - 1 => FillStep(n, j + 2))
    + [Closing(n)]
  }

  /** Step `i + 1` of the reference trace fills cell `i`, for `2 <= i <= n`. */
  lemma FibTraceFill(n: nat, i: nat)
    requires 2 <= i <= n
    ensures FibTrace(n)[i + 1] == FillStep(n, i)
  {
    var fills := seq(n - 1, j requires 0 <= j < n - 1 => FillStep(n, j + 2));
    assert FibTrace(n)[i + 1] == fills[i - 2];
  }

  /** The first three steps: the empty table, then the base cases. */
  function Opening(n: nat): seq<Step> {
    [Step(TableUpTo(n, 0), None, InitialText),
     Step(TableUpTo(n, 2), Some((0, 0)), BaseZeroText),
     Step(TableUpTo(n, 2), Some((0, 1)), BaseOneText)]
  }

  /** The closing step: the full table and the answer. */
  function Closing(n: nat): Step {
    Step(TableUpTo(n, n + 1), None, FinalText(n, Fib(n)))
  }

  lemma FibTraceEnds(n: nat)
    requires n >= 1
    ensures FibTrace(n)[..3] == Opening(n)
    ensures FibTrace(n)[n + 2] == Closing(n)
  {
  }

  /** How many leading cells of row 0 are filled in step `k` of the trace
      for `n`: none at first, both base cases from step 1 on, cell `k - 1`
      as the last one in fill step `k`, and all `n + 1` at the end. */
  function FilledAt(n: nat, k: nat): nat {
    if k == 0 then 0 else if k <= 2 then 2 else if k <= n + 1 then k else n + 1
  }

  /** Every step's table is the table with `FilledAt(n, k)` cells filled. */
  lemma FibTraceTables(n: nat, k: nat)
    requires n >= 1 && k < n + 3
    ensures FibTrace(n)[k].table == TableUpTo(n, FilledAt(n, k))
  {
    FibTraceEnds(n);
    if k < 3 {
      assert FibTrace(n)[k] == FibTrace(n)[..3][k];
    } else if k <= n + 1 {
      FibTraceFill(n, k - 1);
    }
  }

  /** Cell contents in every step: row 0 holds F(0), F(1), ... in its first
      `FilledAt(n, k)` cells and null after them; row 1 is null throughout. */
  lemma StepCells(n: nat, k: nat)
    requires n >= 1 && k < n + 3
    ensures |FibTrace(n)[k].table| == 2
    ensures |FibTrace(n)[k].table[0]| == n + 1 && |FibTrace(n)[k].table[1]| == n + 1
    ensures forall c :: 0 <= c <= n ==>
      FibTrace(n)[k].table[0][c] == (if c < FilledAt(n, k) then Some(Fib(c)) else None)
    ensures forall c :: 0 <= c <= n ==> FibTrace(n)[k].table[1][c] == None
  {
    FibTraceTables(n, k);
  }

  /** The opening steps: the first shows an all-null table and no cell; the
      two base-case steps show the same table, with F(0) = 0 and F(1) = 1
      already written, and differ only in the highlighted cell. */
  lemma OpeningSteps(n: nat)
    requires n >= 1
    ensures var t := FibTrace(n);
      && t[0].currentCell == None
      && (forall r, c :: 0 <= r < 2 && 0 <= c <= n ==> t[0].table[r][c] == None)
      && t[1].table == t[2].table
      && t[1].table[0][0] == Some(0) && t[1].table[0][1] == Some(1)
      && t[1].currentCell == Some((0, 0)) && t[2].currentCell == Some((0, 1))
      && t[1].description == BaseZeroText && t[2].description == BaseOneText
  {
    FibTraceEnds(n);
    var t := FibTrace(n);
    assert t[0] == t[..3][0] && t[1] == t[..3][1] && t[2] == t[..3][2];
  }

  /** The step filling cell `i` shows the cell as the sum of the two cells
      before it in the same snapshot, and its text reports that sum. */
  lemma FillStepSums(n: nat, i: nat)
    requires 2 <= i <= n
    ensures var s := FillStep(n, i);
      && |s.table| == 2 && |s.table[0]| == n + 1
      && s.currentCell == Some((0, i))
      && s.table[0][i - 1].Some? && s.table[0][i - 2].Some?
      && s.table[0][i] == Some(s.table[0][i - 1].value + s.table[0][i - 2].value)
      && s.description == FillText(i, s.table[0][i - 1].value, s.table[0][i - 2].value, s.table[0][i].value)
  {
    var row := TableUpTo(n, i + 1)[0];
    assert row[i] == Some(Fib(i)) && row[i - 1] == Some(Fib(i - 1)) && row[i - 2] == Some(Fib(i - 2));
  }

  /** Fill step `i` of the trace is step `i + 1`: it highlights cell (0, i),
      which holds the sum of the two cells before it in the same snapshot,
      and its text reports that sum. */
  lemma FillSteps(n: nat, i: nat)
    requires 2 <= i <= n
    ensures var s := FibTrace(n)[i + 1];
      && s.currentCell == Some((0, i))
      && s.table[0][i - 1].Some? && s.table[0][i - 2].Some?
      && s.table[0][i] == Some(s.table[0][i - 1].value + s.table[0][i - 2].value)
      && s.description == FillText(i, s.table[0][i - 1].value, s.table[0][i - 2].value, s.table[0][i].value)
  {
    FibTraceFill(n, i);
    FillStepSums(n, i);
  }

  /** The closing step: no highlighted cell, the whole of row 0 filled, and
      the text reports F(n). */
  lemma ClosingStep(n: nat)
    requires n >= 1
    ensures var s := FibTrace(n)[n + 2];
      && s.currentCell == None
      && |s.table| == 2 && |s.table[0]| == n + 1
      && (forall c :: 0 <= c <= n ==> s.table[0][c] == Some(Fib(c)))
      && s.description == FinalText(n, Fib(n))
  {
    FibTraceEnds(n);
  }

  /** Snapshots are independent copies, so a later step only adds cells: a
      cell that step `j` shows filled is shown with the same value by every
      later step, and row 1 never changes. */
  lemma TablesOnlyGrow(n: nat, j: nat, k: nat)
    requires n >= 1 && j <= k < n + 3
    ensures forall c :: 0 <= c <= n && FibTrace(n)[j].table[0][c].Some? ==>
      FibTrace(n)[k].table[0][c] == FibTrace(n)[j].table[0][c]
    ensures FibTrace(n)[k].table[1] == FibTrace(n)[j].table[1]
  {
    StepCells(n, j);
    StepCells(n, k);
    assert FilledAt(n, j) <= FilledAt(n, k);
    assert FibTrace(n)[k].table[1] == FibTrace(n)[j].table[1];
  }

  /** The page's instance, F(10): thirteen steps, the last reporting 55. */
  lemma SampleTrace()
    ensures |FibTrace(SampleN)| == 13
    ensures Fib(SampleN) == 55
    ensures FibTrace(SampleN)[12].currentCell == None
    ensures FibTrace(SampleN)[12].description == "Complete! F(10) = 55"
  {
    ClosingStep(SampleN);
    assert NatToString(10) == "10";
    assert NatToString(55) == "55";
  }

  /** A deep copy of the table (`JSON.parse(JSON.stringify(table))`). */
  function Snapshot(table: array2<Cell>): (s: seq<seq<Cell>>)
    reads table
    ensures |s| == table.Length0
    ensures forall r :: 0 <= r < table.Length0 ==> |s[r]| == table.Length1
    ensures forall r, c :: 0 <= r < table.Length0 && 0 <= c < table.Length1 ==> s[r][c] == table[r, c]
  {
    seq(table.Length0, r reads table => seq(table.Length1, c reads table => if 0 <= r < table.Length0 && 0 <= c < table.Length1 then table[r, c] else None))
  }

  /** The table is 2 x (n + 1), cells `0 .. filled - 1` of row 0 hold their
      Fibonacci numbers and every other cell is null. */
  ghost predicate Filled(table: array2<Cell>, n: nat, filled: nat)
    reads table
  {
    && table.Length0 == 2 && table.Length1 == n + 1
    && (forall c :: 0 <= c <= n ==> table[0, c] == (if c < filled then Some(Fib(c)) else None))
    && (forall c :: 0 <= c <= n ==> table[1, c] == None)
  }

  /** Such a table snapshots to exactly `TableUpTo(n, filled)`. */
  lemma SnapshotIs(table: array2<Cell>, n: nat, filled: nat)
    requires Filled(table, n, filled)
    ensures Snapshot(table) == TableUpTo(n, filled)
  {
    var s := Snapshot(table);
    var t := TableUpTo(n, filled);
    assert s[0] == t[0];
    assert s[1] == t[1];
  }

  /** A prefix one longer is the prefix plus the next element. */
  lemma PrefixGrows<T>(s: seq<T>, k: nat)
    requires k < |s|
    ensures s[..k + 1] == s[..k] + [s[k]]
  {
  }

  /** The generator: the table is allocated with every cell null, the base
      cases are written, then the loop fills cells 2 .. n from the two cells
      before each, pushing a snapshot after every write. */
  method GenerateTrace(n: nat) returns (steps: seq<Step>)
    requires n >= 1
    ensures steps == FibTrace(n)
  {
    ghost var trace := FibTrace(n);
    var table;
    table, steps := Initialise(n);
    FibTraceEnds(n);

    var i: nat := 2;
    while i <= n
      invariant 2 <= i <= n + 1
      invariant Filled(table, n, i)
      invariant steps == trace[..i + 1]
    {
      var step := FillCell(table, n, i);
      FibTraceFill(n, i);
      PrefixGrows(trace, i + 1);
      steps := steps + [step];
      i := i + 1;
    }

    SnapshotIs(table, n, n + 1);
    steps := steps + [Step(Snapshot(table), None, FinalText(n, table[0, n].value))];
    PrefixGrows(trace, n + 2);
    assert trace[..n + 3] == trace;
  }

  /** The table is allocated with every cell null and snapshotted, then the
      two base cases are written and snapshotted once each. */
  method Initialise(n: nat) returns (table: array2<Cell>, steps: seq<Step>)
    requires n >= 1
    ensures fresh(table) && Filled(table, n, 2)
    ensures steps == Opening(n)
  {
    table := new Cell[2, n + 1]((r, c) => None);
    assert Filled(table, n, 0);
    SnapshotIs(table, n, 0);
    steps := [Step(Snapshot(table), None, InitialText)];

    table[0, 0] := Some(0);
    table[0, 1] := Some(1);
    assert forall c :: 2 <= c <= n ==> table[0, c] == None;
    assert Filled(table, n, 2);
    SnapshotIs(table, n, 2);
    steps := steps + [Step(Snapshot(table), Some((0, 0)), BaseZeroText)];
    steps := steps + [Step(Snapshot(table), Some((0, 1)), BaseOneText)];
  }

  /** One pass of the fill loop: cell `i` of row 0 gets the sum of the two
      cells before it, and the step showing the new table is returned. */
  method FillCell(table: array2<Cell>, n: nat, i: nat) returns (step: Step)
    requires 2 <= i <= n && Filled(table, n, i)
    modifies table
    ensures Filled(table, n, i + 1)
    ensures step == FillStep(n, i)
  {
    var previous := table[0, i - 1].value;
    var beforeThat := table[0, i - 2].value;
    table[0, i] := Some(previous + beforeThat);
    assert Filled(table, n, i + 1);
    SnapshotIs(table, n, i + 1);
    step := Step(Snapshot(table), Some((0, i)),
                 FillText(i, table[0, i - 1].value, table[0, i - 2].value, table[0, i].value));
  }
}
