/**
 * TruthTable: a grid of 2^n + 1 rows and one column per breakdown entry. Row 0 holds the
 * printed form of every entry; the variable columns of the data rows count through all
 * assignments in binary; every other column holds its entry's value under the row's
 * assignment. The grid is modelled as a sequence of rows of strings.
 */
module TruthTables {

  import opened Operators
  import opened Expressions
  import opened Bits
  import Printer
  import Parser

  /** Beyond 30 variables 2^n + 1 does not fit Java's int and the grid cannot be allocated. */
  const MaxVariables := 30

  /** A cell the fill has not written yet (the source's null entry). */
  const Unset: string := ""

  /**
   * The table's input: the breakdown starts with its n variables, whose names are distinct,
   * as the parser delivers them.
   */
  predicate ValidBreakdown(breakdown: seq<Expr>, n: nat) {
    && n <= |breakdown|
    && (forall i :: 0 <= i < n ==> breakdown[i].Var?)
    && (forall i, j :: 0 <= i < j < n ==> breakdown[i].name != breakdown[j].name)
  }

  /** "" + b for a bit. */
  function BitString(b: int): (s: string)
    requires IsBit(b)
    ensures s == "0" || s == "1"
    ensures (s == "1") == (b == 1)
  {
    if b == 1 then "1" else "0"
  }

  /** Integer.parseInt on a cell the fill has written. */
  function ParseBit(s: string): (b: int)
    requires s == "0" || s == "1"
    ensures IsBit(b)
    ensures (b == 1) == (s == "1")
  {
    if s == "1" then 1 else 0
  }

  lemma BitStringRoundTrip(b: int, s: string)
    requires IsBit(b) && (s == "0" || s == "1")
    ensures ParseBit(BitString(b)) == b
    ensures BitString(ParseBit(s)) == s
  {
  }

  /** The environment after setting names[0], names[1], ... in that order. */
  function Assign(env: Env, names: seq<string>, vals: seq<int>): Env
    requires |names| == |vals|
    decreases |names|
  {
    if names == [] then env
    else Assign(env, names[..|names| - 1], vals[..|vals| - 1])[names[|names| - 1] := vals[|vals| - 1]]
  }

  /** With distinct names every name reads the value assigned to it, and bits stay bits. */
  lemma {:induction false} AssignReads(env: Env, names: seq<string>, vals: seq<int>)
    requires |names| == |vals|
    requires forall i, j :: 0 <= i < j < |names| ==> names[i] != names[j]
    ensures forall k :: 0 <= k < |names| ==> Value(Assign(env, names, vals), names[k]) == vals[k]
    ensures BitEnv(env) && IsBits(vals) ==> BitEnv(Assign(env, names, vals))
    decreases |names|
  {
    if names != [] {
      var m := |names| - 1;
      AssignReads(env, names[..m], vals[..m]);
      forall k | 0 <= k < m ensures Value(Assign(env, names, vals), names[k]) == vals[k] {
        assert names[k] == names[..m][k] && vals[k] == vals[..m][k];
      }
      assert IsBits(vals) ==> IsBits(vals[..m]);
    }
  }

  function VariableNames(breakdown: seq<Expr>, n: nat): (names: seq<string>)
    requires ValidBreakdown(breakdown, n)
    ensures |names| == n
    ensures forall k :: 0 <= k < n ==> names[k] == breakdown[k].name
  {
    seq(n, k requires 0 <= k < n => breakdown[k].name)
  }

  /** The assignment of data row i + 1: variable k holds binary digit k of i. */
  function RowEnv(breakdown: seq<Expr>, n: nat, i: nat): (env: Env)
    requires ValidBreakdown(breakdown, n)
    ensures BitEnv(env)
    ensures forall k :: 0 <= k < n ==> Value(env, breakdown[k].name) == Digit(n, i, k)
  {
    var names := VariableNames(breakdown, n);
    AssignReads(map[], names, RowBits(n, i));
    Assign(map[], names, RowBits(n, i))
  }

  predicate Shaped(table: seq<seq<string>>, rows: nat, columns: nat) {
    |table| == rows && forall r :: 0 <= r < rows ==> |table[r]| == columns
  }

  /** Row 0 holds toString() of every breakdown entry, in breakdown order. */
  predicate HeaderRow(table: seq<seq<string>>, breakdown: seq<Expr>) {
    |table| >= 1 && |table[0]| == |breakdown|
    && forall j :: 0 <= j < |breakdown| ==> table[0][j] == Printer.ToString(breakdown[j])
  }

  /** The first `filled` variable columns of every data row r hold binary digit k of r - 1. */
  predicate VariableCells(table: seq<seq<string>>, n: nat, filled: nat) {
    && filled <= n
    && (forall r :: 1 <= r < |table| ==> |table[r]| >= filled)
    && forall r, k :: 1 <= r < |table| && 0 <= k < filled ==> table[r][k] == BitString(Digit(n, r - 1, k))
  }

  /** Every other column of every data row holds its entry's value under the row's assignment. */
  predicate ValueCells(table: seq<seq<string>>, breakdown: seq<Expr>, n: nat)
    requires ValidBreakdown(breakdown, n)
  {
    && (forall r :: 1 <= r < |table| ==> |table[r]| == |breakdown|)
    && forall r, j :: 1 <= r < |table| && n <= j < |breakdown| ==>
      table[r][j] == BitString(EvalExpr(breakdown[j], RowEnv(breakdown, n, r - 1)))
  }

  /**
   * The constructor: a (2^n + 1) x |breakdown| grid, filled by buildTable.
   */
  method NewTruthTable(breakdown: seq<Expr>, n: nat) returns (table: seq<seq<string>>)
    requires ValidBreakdown(breakdown, n) && n <= MaxVariables
    ensures Shaped(table, Pow2(n) + 1, |breakdown|)
    ensures HeaderRow(table, breakdown)
    ensures VariableCells(table, n, n)
    ensures ValueCells(table, breakdown, n)
    ensures forall r, c :: 1 <= r < |table| && 0 <= c < |table[r]| ==> table[r][c] == "0" || table[r][c] == "1"
  {
    var rows := Pow2(n) + 1;
    var columns := |breakdown|;
    table := seq(rows, _ => seq(columns, _ => Unset));
    table := BuildTable(table, breakdown, n);
    forall r, c | 1 <= r < |table| && 0 <= c < |table[r]| ensures table[r][c] == "0" || table[r][c] == "1" {
      if c < n {
        assert table[r][c] == BitString(Digit(n, r - 1, c));
      } else {
        assert table[r][c] == BitString(EvalExpr(breakdown[c], RowEnv(breakdown, n, r - 1)));
      }
    }
  }

  /** buildTable: header row, then the variable columns, then evaluateExpressions. */
  method BuildTable(table0: seq<seq<string>>, breakdown: seq<Expr>, n: nat) returns (table: seq<seq<string>>)
    requires ValidBreakdown(breakdown, n)
    requires Shaped(table0, Pow2(n) + 1, |breakdown|)
    ensures Shaped(table, Pow2(n) + 1, |breakdown|)
    ensures HeaderRow(table, breakdown)
    ensures VariableCells(table, n, n)
    ensures ValueCells(table, breakdown, n)
  {
    var rows := |table0|;
    var columns := |breakdown|;
    table := table0;
    var c := 0;
    while c < columns
      invariant 0 <= c <= columns
      invariant Shaped(table, rows, columns)
      invariant forall j :: 0 <= j < c ==> table[0][j] == Printer.ToString(breakdown[j])
    {
      table := table[0 := table[0][c := Printer.ToString(breakdown[c])]];
      c := c + 1;
    }
    var zeroIntervall := (rows - 1) / 2;
    var setterFlag := 1;
    var setter := BitString(0 % 2);
    var varI := 0;
    while varI < n
      invariant 0 <= varI <= n
      invariant Shaped(table, rows, columns)
      invariant HeaderRow(table, breakdown)
      invariant varI < n ==> zeroIntervall == Pow2(n - 1 - varI)
      invariant setterFlag == Pow2(varI + 1) - 1
      invariant VariableCells(table, n, varI)
    {
      if varI == 0 {
        assert Pow2(n) == 2 * Pow2(n - 1);
      }
      table, setterFlag, setter := FillColumn(table, n, varI, zeroIntervall, setterFlag, setter);
      if varI + 1 < n {
        assert Pow2(n - 1 - varI) == 2 * Pow2(n - 1 - (varI + 1));
      }
      zeroIntervall := zeroIntervall / 2;
      varI := varI + 1;
    }
    table := EvaluateExpressions(table, breakdown, n);
  }

  /**
   * One variable column of buildTable's fill. The block length is 2^(n-1-k); at the start of
   * every block the running counter goes up and its parity is written until the next block.
   * The counter is not reset between columns; it enters column k as 2^(k+1) - 1, which is
   * odd, so every column starts with 0.
   */
  method FillColumn(table0: seq<seq<string>>, n: nat, k: nat, zeroIntervall: nat, setterFlag0: int, setter0: string)
    returns (table: seq<seq<string>>, setterFlag: int, setter: string)
    requires k < n && |table0| == Pow2(n) + 1
    requires forall r :: 0 <= r < |table0| ==> |table0[r]| > k
    requires zeroIntervall == Pow2(n - 1 - k)
    requires setterFlag0 == Pow2(k + 1) - 1
    ensures |table| == |table0|
    ensures forall r :: 0 <= r < |table| ==> |table[r]| == |table0[r]|
    ensures forall r, c :: 0 <= r < |table| && 0 <= c < |table[r]| && (r == 0 || c != k) ==> table[r][c] == table0[r][c]
    ensures forall r :: 1 <= r < |table| ==> table[r][k] == BitString(Digit(n, r - 1, k))
    ensures setterFlag == Pow2(k + 2) - 1
  {
    var column;
    column, setterFlag, setter := ColumnValues(n, k, zeroIntervall, setterFlag0, setter0);
    table := WriteColumn(table0, k, column);
  }

  /** The loop over the data rows of FillColumn: the values written into column k, top to bottom. */
  method ColumnValues(n: nat, k: nat, zeroIntervall: nat, setterFlag0: int, setter0: string)
    returns (column: seq<string>, setterFlag: int, setter: string)
    requires k < n && zeroIntervall == Pow2(n - 1 - k)
    requires setterFlag0 == Pow2(k + 1) - 1
    ensures |column| == Pow2(n)
    ensures forall r :: 0 <= r < |column| ==> column[r] == BitString(Digit(n, r, k))
    ensures setterFlag == Pow2(k + 2) - 1
  {
    var rows := Pow2(n);
    setterFlag, setter := setterFlag0, setter0;
    column := [];
    var i := 0;
    while i < rows
      invariant 0 <= i <= rows
      invariant |column| == i
      invariant forall r :: 0 <= r < i ==> column[r] == BitString(Digit(n, r, k))
      invariant setterFlag == setterFlag0 + BlocksStarted(i, zeroIntervall)
      invariant i > 0 ==> setter == BitString(setterFlag % 2)
    {
      setterFlag, setter := NextCell(n, k, zeroIntervall, i, setterFlag, setter);
      column := column + [setter];
      i := i + 1;
    }
    CounterAtEnd(n, k, zeroIntervall);
  }

  /**
   * One data row of the fill: at a block start the counter goes up and the setter takes its
   * parity; the setter's value is then the row's binary digit k.
   */
  method NextCell(n: nat, k: nat, z: nat, i: nat, setterFlag0: int, setter0: string)
    returns (setterFlag: int, setter: string)
    requires k < n && z == Pow2(n - 1 - k)
    requires setterFlag0 == Pow2(k + 1) - 1 + BlocksStarted(i, z)
    requires i > 0 ==> setter0 == BitString(setterFlag0 % 2)
    ensures setterFlag == Pow2(k + 1) - 1 + BlocksStarted(i + 1, z)
    ensures setter == BitString(setterFlag % 2) == BitString(Digit(n, i, k))
  {
    setterFlag, setter := setterFlag0, setter0;
    if i % z == 0 {
      setterFlag := setterFlag + 1;
      setter := BitString(setterFlag % 2);
    }
    CounterValue(n, k, z, i);
  }

  /** How often the block test `i % z == 0` has succeeded over the first i rows. */
  function BlocksStarted(i: nat, z: nat): nat
    requires z >= 1
  {
    if i == 0 then 0 else BlocksStarted(i - 1, z) + (if (i - 1) % z == 0 then 1 else 0)
  }

  /** Row i lies in block i / z, and the block test has succeeded once per block reached. */
  lemma {:induction false} BlocksStartedCount(i: nat, z: nat)
    requires z >= 1
    ensures BlocksStarted(i + 1, z) == i / z + 1
  {
    if i > 0 {
      BlocksStartedCount(i - 1, z);
      BlockStep(i, z);
    }
  }

  /** Moving from row i - 1 to row i the block number goes up exactly at a block start. */
  lemma BlockStep(i: nat, z: nat)
    requires z >= 1 && i >= 1
    ensures (i - 1) / z + (if i % z == 0 then 1 else 0) == i / z
  {
    var q := i / z;
    var r := i % z;
    if r == 0 {
      assert i - 1 == z * (q - 1) + (z - 1);
      DivUnique(i - 1, z, q - 1, z - 1);
    } else {
      DivUnique(i - 1, z, q, r - 1);
    }
  }

  /**
   * The parity written for row i is digit k of i: the counter enters the column as
   * 2^(k+1) - 1, odd, and has gone up once per block reached.
   */
  lemma CounterValue(n: nat, k: nat, z: nat, i: nat)
    requires k < n && z == Pow2(n - 1 - k)
    ensures BitString((Pow2(k + 1) - 1 + BlocksStarted(i + 1, z)) % 2) == BitString(Digit(n, i, k))
  {
    BlocksStartedCount(i, z);
    assert Pow2(k + 1) == 2 * Pow2(k);
  }

  /** After all 2^n rows the counter has gone up 2^(k+1) times. */
  lemma CounterAtEnd(n: nat, k: nat, z: nat)
    requires k < n && z == Pow2(n - 1 - k)
    ensures Pow2(k + 1) - 1 + BlocksStarted(Pow2(n), z) == Pow2(k + 2) - 1
  {
    var m := Pow2(k + 1);
    Pow2Add(n - 1 - k, k + 1);
    assert n - 1 - k + (k + 1) == n;
    assert Pow2(n) == z * m;
    assert Pow2(n) - 1 == z * (m - 1) + (z - 1);
    DivUnique(Pow2(n) - 1, z, m - 1, z - 1);
    BlocksStartedCount(Pow2(n) - 1, z);
    assert Pow2(k + 2) == 2 * m;
  }

  /** The grid with column k of data row r + 1 set to column[r], for every data row. */
  function WriteColumn(table: seq<seq<string>>, k: nat, column: seq<string>): (t: seq<seq<string>>)
    requires |table| == |column| + 1
    requires forall r :: 0 <= r < |table| ==> |table[r]| > k
    ensures |t| == |table| && t[0] == table[0]
    ensures forall r :: 0 <= r < |t| ==> |t[r]| == |table[r]|
    ensures forall r, c :: 1 <= r < |t| && 0 <= c < |t[r]| ==> t[r][c] == (if c == k then column[r - 1] else table[r][c])
  {
    seq(|table|, r requires 0 <= r < |table| => if r == 0 then table[0] else table[r][k := column[r - 1]])
  }

  /**
   * evaluateExpressions: for every data row, read the variable cells into the environment,
   * then write the value of every later breakdown entry. Row 0 and the variable columns are
   * left as they are.
   */
  method EvaluateExpressions(table0: seq<seq<string>>, breakdown: seq<Expr>, n: nat) returns (table: seq<seq<string>>)
    requires ValidBreakdown(breakdown, n)
    requires |table0| >= 1
    requires forall r :: 0 <= r < |table0| ==> |table0[r]| == |breakdown|
    requires VariableCells(table0, n, n)
    ensures |table| == |table0|
    ensures forall r :: 0 <= r < |table| ==> |table[r]| == |breakdown|
    ensures forall r, c :: 0 <= r < |table| && 0 <= c < |breakdown| && (r == 0 || c < n) ==> table[r][c] == table0[r][c]
    ensures ValueCells(table, breakdown, n)
  {
    var rows := |table0|;
    var columns := |breakdown|;
    table := table0;
    var i := 1;
    while i < rows
      invariant 1 <= i <= rows
      invariant |table| == rows
      invariant forall r :: 0 <= r < rows ==> |table[r]| == columns
      invariant table[0] == table0[0]
      invariant forall r, c :: 0 <= r < rows && 0 <= c < n ==> table[r][c] == table0[r][c]
      invariant forall r, j :: 1 <= r < i && n <= j < columns ==>
        table[r][j] == BitString(EvalExpr(breakdown[j], RowEnv(breakdown, n, r - 1)))
    {
      var env := ReadAssignment(table[i], breakdown, n, i - 1);
      var row := EvaluateRow(table[i], breakdown, n, env);
      table := table[i := row];
      i := i + 1;
    }
  }

  /** The second loop of a row in evaluateExpressions: every entry after the variables is evaluated. */
  method EvaluateRow(row0: seq<string>, breakdown: seq<Expr>, n: nat, env: Env) returns (row: seq<string>)
    requires n <= |breakdown| && |row0| == |breakdown| && BitEnv(env)
    ensures |row| == |row0|
    ensures forall c :: 0 <= c < n ==> row[c] == row0[c]
    ensures forall c :: n <= c < |row| ==> row[c] == BitString(EvalExpr(breakdown[c], env))
  {
    row := row0;
    var j := n;
    while j < |breakdown|
      invariant n <= j <= |breakdown|
      invariant |row| == |row0|
      invariant forall c :: 0 <= c < n ==> row[c] == row0[c]
      invariant forall c :: n <= c < j ==> row[c] == BitString(EvalExpr(breakdown[c], env))
    {
      var result := EvalExpr(breakdown[j], env);
      row := row[j := BitString(result)];
      j := j + 1;
    }
  }

  /**
   * The first loop of a row in evaluateExpressions: each variable gets the value parsed from
   * its cell, which gives exactly the row's assignment.
   */
  method ReadAssignment(row: seq<string>, breakdown: seq<Expr>, n: nat, i: nat) returns (env: Env)
    requires ValidBreakdown(breakdown, n)
    requires |row| >= n
    requires forall k :: 0 <= k < n ==> row[k] == BitString(Digit(n, i, k))
    ensures env == RowEnv(breakdown, n, i)
  {
    var names := VariableNames(breakdown, n);
    var bits := RowBits(n, i);
    env := map[];
    var j := 0;
    while j < n
      invariant 0 <= j <= n
      invariant env == Assign(map[], names[..j], bits[..j])
    {
      assert names[..j + 1][..j] == names[..j] && bits[..j + 1][..j] == bits[..j];
      env := env[breakdown[j].name := ParseBit(row[j])];
      j := j + 1;
    }
    assert names[..n] == names && bits[..n] == bits;
  }

  /**
   * The variable columns of the data rows list every 0/1 assignment exactly once: each
   * assignment appears in some data row, and two different data rows differ in some
   * variable column.
   */
  lemma RowsEnumerateAssignments(table: seq<seq<string>>, n: nat)
    requires |table| == Pow2(n) + 1 && VariableCells(table, n, n)
    ensures forall bits :: |bits| == n && IsBits(bits) ==> exists r :: 1 <= r < |table| && RowHolds(table, r, bits)
    ensures forall r1, r2 :: 1 <= r1 < r2 < |table| ==> table[r1][..n] != table[r2][..n]
  {
    forall bits | |bits| == n && IsBits(bits) ensures exists r :: 1 <= r < |table| && RowHolds(table, r, bits) {
      var r := AssignmentRow(table, n, bits);
    }
    forall r1, r2 | 1 <= r1 < r2 < |table| ensures table[r1][..n] != table[r2][..n] {
      RowsDiffer(table, n, r1, r2);
    }
  }

  /** Row r spells the assignment bits in its variable columns. */
  predicate RowHolds(table: seq<seq<string>>, r: nat, bits: seq<int>)
    requires r < |table| && |bits| <= |table[r]| && IsBits(bits)
  {
    forall k :: 0 <= k < |bits| ==> table[r][k] == BitString(bits[k])
  }

  /** The data row holding a given assignment: the one after the row its digits spell. */
  lemma AssignmentRow(table: seq<seq<string>>, n: nat, bits: seq<int>) returns (r: nat)
    requires |table| == Pow2(n) + 1 && VariableCells(table, n, n)
    requires |bits| == n && IsBits(bits)
    ensures 1 <= r < |table| && RowHolds(table, r, bits)
  {
    FromBitsRoundTrip(bits);
    r := FromBits(bits) + 1;
    assert RowBits(n, r - 1) == bits;
  }

  /** Two different data rows spell different numbers below 2^n, so their digits differ. */
  lemma RowsDiffer(table: seq<seq<string>>, n: nat, r1: nat, r2: nat)
    requires |table| == Pow2(n) + 1 && VariableCells(table, n, n)
    requires 1 <= r1 < r2 < |table|
    ensures table[r1][..n] != table[r2][..n]
  {
    var b1 := RowBits(n, r1 - 1);
    var b2 := RowBits(n, r2 - 1);
    RowBitsRoundTrip(n, r1 - 1);
    RowBitsRoundTrip(n, r2 - 1);
    assert b1 != b2;
    var k :| 0 <= k < n && b1[k] != b2[k];
    assert table[r1][..n][k] == table[r1][k] == BitString(b1[k]);
    assert table[r2][..n][k] == table[r2][k] == BitString(b2[k]);
  }

  /**
   * A value column reads "1" in a data row exactly when its formula is true under the row's
   * assignment, in which variable k holds digit k of the row number.
   */
  lemma ValueColumnsAreTruthValues(table: seq<seq<string>>, breakdown: seq<Expr>, n: nat)
    requires ValidBreakdown(breakdown, n) && ValueCells(table, breakdown, n)
    ensures forall r, j :: 1 <= r < |table| && n <= j < |breakdown| ==>
      (table[r][j] == "1" <==> Holds(breakdown[j], RowEnv(breakdown, n, r - 1)))
  {
    forall r, j | 1 <= r < |table| && n <= j < |breakdown|
      ensures table[r][j] == "1" <==> Holds(breakdown[j], RowEnv(breakdown, n, r - 1))
    {
      EvalAgreesWithTruth(breakdown[j], RowEnv(breakdown, n, r - 1));
    }
  }

  /**
   * The parser's breakdown is a valid table input: its variables come first, with distinct
   * names, and numOfVariables of the list counts exactly them.
   */
  lemma ParsedBreakdownFitsTable(input: string)
    requires Parser.WellFormed(input)
    ensures ValidBreakdown(Parser.ParseToExpr(input), |Parser.Variables(input)|)
    ensures NumOfVariablesIn(Parser.ParseToExpr(input)) == |Parser.Variables(input)|
  {
    Parser.BreakdownVariables(input);
  }
}
