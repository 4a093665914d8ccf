/** Worked examples of the parser on small token sequences. */
module Scenarios {

  import opened Operators
  import opened Expressions
  import opened Parser
  import Printer
  import Bits
  import TruthTables

  const LeftTokens: seq<string> := ["A", "+", "B", "+", "C"]
  const LeftSlots: seq<Slot> := [Filled(Var("A")), Empty(OR, 1), Filled(Var("B")), Empty(OR, 1), Filled(Var("C"))]

  lemma LeftLayout()
    ensures Lay(LeftTokens) == Layout(LeftSlots, ["A", "B", "C"], 0)
  {
    var t := LeftTokens;
    assert t[..4] == ["A", "+", "B", "+"];
    assert t[..4][..3] == ["A", "+", "B"];
    assert t[..4][..3][..2] == ["A", "+"];
    assert t[..4][..3][..2][..1] == ["A"];
    assert t[..4][..3][..2][..1][..0] == [];
    assert Lay(["A"]) == Layout([Filled(Var("A"))], ["A"], 0);
    assert Lay(["A", "+"]) == Layout(LeftSlots[..2], ["A"], 0);
    assert Lay(["A", "+", "B"]) == Layout(LeftSlots[..3], ["A", "B"], 0);
    assert Lay(["A", "+", "B", "+"]) == Layout(LeftSlots[..4], ["A", "B"], 0);
  }

  /** Of two equal operators the left one is joined first. */
  lemma LeftFirstStep()
    ensures CanReduce(LeftSlots)
    ensures Step(LeftSlots) ==
      ([Filled(Or(Var("B"), Var("A"), 1)), Empty(OR, 1), Filled(Var("C"))], Or(Var("B"), Var("A"), 1))
  {
    var k := SelectOperator(LeftSlots);
    assert LeftSlots[1].Empty? && LeftSlots[1].prec == 1;
    assert k == 1;
    var r := Step(LeftSlots);
    assert JoinPosition(LeftSlots) == 0;
    assert r.1.Or? && r.1 == Or(Var("B"), Var("A"), 1);
    assert r.0[1..] == LeftSlots[3..] == [Empty(OR, 1), Filled(Var("C"))];
    assert r.0[0] == Filled(r.1);
    assert r.0 == [r.0[0]] + r.0[1..];
    assert r.0 == [Filled(Or(Var("B"), Var("A"), 1)), Empty(OR, 1), Filled(Var("C"))];
  }

  lemma LeftSecondStep()
    ensures var items := [Filled(Or(Var("B"), Var("A"), 1)), Empty(OR, 1), Filled(Var("C"))];
      && CanReduce(items)
      && Step(items) == ([Filled(Or(Var("C"), Or(Var("B"), Var("A"), 1), 1))], Or(Var("C"), Or(Var("B"), Var("A"), 1), 1))
  {
    var items := [Filled(Or(Var("B"), Var("A"), 1)), Empty(OR, 1), Filled(Var("C"))];
    assert items[1].Empty? && items[1].prec == 1;
    assert SelectOperator(items) == 1;
    var r := Step(items);
    assert JoinPosition(items) == 0;
    assert r.1.Or? && r.1 == Or(Var("C"), Or(Var("B"), Var("A"), 1), 1);
    assert r.0 == [r.0[0]];
  }

  /** The second join leaves the single root. */
  lemma LeftTail()
    ensures var items := [Filled(Or(Var("B"), Var("A"), 1)), Empty(OR, 1), Filled(Var("C"))];
      && ReducesCleanly(items)
      && Reduce(items) == ([Filled(Or(Var("C"), Or(Var("B"), Var("A"), 1), 1))], [Or(Var("C"), Or(Var("B"), Var("A"), 1), 1)])
  {
    LeftSecondStep();
    var ab := Or(Var("B"), Var("A"), 1);
    var root := Or(Var("C"), ab, 1);
    var items := [Filled(ab), Empty(OR, 1), Filled(Var("C"))];
    assert Step(items) == ([Filled(root)], root);
    assert Reduce([Filled(root)]) == ([Filled(root)], []);
    ReduceUnfolds(items, [Filled(root)], root, [Filled(root)], []);
    assert [root] + [] == [root];
  }

  /** Reducing the laid-out `A+B+C` joins A with B first, then the result with C. */
  lemma LeftReduce()
    ensures ReducesCleanly(LeftSlots)
    ensures Reduce(LeftSlots) ==
      ([Filled(Or(Var("C"), Or(Var("B"), Var("A"), 1), 1))], [Or(Var("B"), Var("A"), 1), Or(Var("C"), Or(Var("B"), Var("A"), 1), 1)])
  {
    LeftFirstStep();
    LeftTail();
    var ab := Or(Var("B"), Var("A"), 1);
    var items := [Filled(ab), Empty(OR, 1), Filled(Var("C"))];
    var root := Or(Var("C"), ab, 1);
    assert Step(LeftSlots) == (items, ab);
    ReduceUnfolds(LeftSlots, items, ab, [Filled(root)], [root]);
    assert [ab] + [root] == [ab, root];
  }

  /** `A+B+C`: equal precedences join left to right, giving (A + B) + C. */
  lemma LeftGrouping()
    ensures ReducesCleanly(Lay(LeftTokens).slots)
    ensures ParseTokens(LeftTokens) ==
      [Var("A"), Var("B"), Var("C"), Or(Var("B"), Var("A"), 1), Or(Var("C"), Or(Var("B"), Var("A"), 1), 1)]
  {
    var ab := Or(Var("B"), Var("A"), 1);
    var root := Or(Var("C"), ab, 1);
    assert VariableNodes(["A", "B", "C"]) == [Var("A"), Var("B"), Var("C")] by {
      var nodes := VariableNodes(["A", "B", "C"]);
      assert nodes[0].name == "A" && nodes[1].name == "B" && nodes[2].name == "C";
    }
    assert [Var("A"), Var("B"), Var("C")] + [ab, root] == [Var("A"), Var("B"), Var("C"), ab, root];
    LeftLayout();
    LeftReduce();
    ParseOfLayout(LeftTokens, LeftSlots, ["A", "B", "C"], [ab, root], [Var("A"), Var("B"), Var("C"), ab, root]);
  }

  const GroupTokens: seq<string> := ["(", "A", "+", "B", ")", "*", "C"]
  const GroupSlots: seq<Slot> := [Filled(Var("A")), Empty(OR, 6), Filled(Var("B")), Empty(AND, 3), Filled(Var("C"))]

  /** Inside one pair of parentheses OR gets 1 + 5 = 6, above the outer AND's 3. */
  lemma GroupLayout()
    ensures Lay(GroupTokens) == Layout(GroupSlots, ["A", "B", "C"], 0)
  {
    var t := GroupTokens;
    assert t[..6] == ["(", "A", "+", "B", ")", "*"];
    assert t[..6][..5] == ["(", "A", "+", "B", ")"];
    assert t[..6][..5][..4] == ["(", "A", "+", "B"];
    assert t[..6][..5][..4][..3] == ["(", "A", "+"];
    assert t[..6][..5][..4][..3][..2] == ["(", "A"];
    assert t[..6][..5][..4][..3][..2][..1] == ["("];
    assert t[..6][..5][..4][..3][..2][..1][..0] == [];
    assert Lay(["("]) == Layout([], [], 5);
    assert Lay(["(", "A"]) == Layout(GroupSlots[..1], ["A"], 5);
    assert Lay(["(", "A", "+"]) == Layout(GroupSlots[..2], ["A"], 5);
    assert Lay(["(", "A", "+", "B"]) == Layout(GroupSlots[..3], ["A", "B"], 5);
    assert Lay(["(", "A", "+", "B", ")"]) == Layout(GroupSlots[..3], ["A", "B"], 0);
    assert Lay(["(", "A", "+", "B", ")", "*"]) == Layout(GroupSlots[..4], ["A", "B"], 0);
  }

  lemma GroupFirstStep()
    ensures CanReduce(GroupSlots)
    ensures Step(GroupSlots) ==
      ([Filled(Or(Var("B"), Var("A"), 6)), Empty(AND, 3), Filled(Var("C"))], Or(Var("B"), Var("A"), 6))
  {
    assert GroupSlots[1].Empty? && GroupSlots[1].prec == 6;
    assert SelectOperator(GroupSlots) == 1;
    var r := Step(GroupSlots);
    assert JoinPosition(GroupSlots) == 0;
    assert r.1.Or? && r.1 == Or(Var("B"), Var("A"), 6);
    assert r.0[1..] == GroupSlots[3..] == [Empty(AND, 3), Filled(Var("C"))];
    assert r.0[0] == Filled(r.1);
    assert r.0 == [r.0[0]] + r.0[1..];
    assert r.0 == [Filled(Or(Var("B"), Var("A"), 6)), Empty(AND, 3), Filled(Var("C"))];
  }

  lemma GroupSecondStep()
    ensures var items := [Filled(Or(Var("B"), Var("A"), 6)), Empty(AND, 3), Filled(Var("C"))];
      && CanReduce(items)
      && Step(items) == ([Filled(And(Var("C"), Or(Var("B"), Var("A"), 6), 3))], And(Var("C"), Or(Var("B"), Var("A"), 6), 3))
  {
    var items := [Filled(Or(Var("B"), Var("A"), 6)), Empty(AND, 3), Filled(Var("C"))];
    assert items[1].Empty? && items[1].prec == 3;
    assert SelectOperator(items) == 1;
    var r := Step(items);
    assert JoinPosition(items) == 0;
    assert r.1.And? && r.1 == And(Var("C"), Or(Var("B"), Var("A"), 6), 3);
    assert r.0 == [r.0[0]];
  }

  lemma GroupTail()
    ensures var items := [Filled(Or(Var("B"), Var("A"), 6)), Empty(AND, 3), Filled(Var("C"))];
      && ReducesCleanly(items)
      && Reduce(items) == ([Filled(And(Var("C"), Or(Var("B"), Var("A"), 6), 3))], [And(Var("C"), Or(Var("B"), Var("A"), 6), 3)])
  {
    GroupSecondStep();
    var ab := Or(Var("B"), Var("A"), 6);
    var root := And(Var("C"), ab, 3);
    var items := [Filled(ab), Empty(AND, 3), Filled(Var("C"))];
    assert Step(items) == ([Filled(root)], root);
    assert Reduce([Filled(root)]) == ([Filled(root)], []);
    ReduceUnfolds(items, [Filled(root)], root, [Filled(root)], []);
    assert [root] + [] == [root];
  }

  /** Reducing the laid-out `(A+B)*C` joins the OR first, then the AND. */
  lemma GroupReduce()
    ensures ReducesCleanly(GroupSlots)
    ensures Reduce(GroupSlots) ==
      ([Filled(And(Var("C"), Or(Var("B"), Var("A"), 6), 3))], [Or(Var("B"), Var("A"), 6), And(Var("C"), Or(Var("B"), Var("A"), 6), 3)])
  {
    GroupFirstStep();
    GroupTail();
    var ab := Or(Var("B"), Var("A"), 6);
    var items := [Filled(ab), Empty(AND, 3), Filled(Var("C"))];
    var root := And(Var("C"), ab, 3);
    assert Step(GroupSlots) == (items, ab);
    ReduceUnfolds(GroupSlots, items, ab, [Filled(root)], [root]);
    assert [ab] + [root] == [ab, root];
  }

  /** `(A+B)*C`: the parenthesised OR is joined first and becomes the AND's left operand. */
  lemma Grouping()
    ensures ReducesCleanly(Lay(GroupTokens).slots)
    ensures ParseTokens(GroupTokens) ==
      [Var("A"), Var("B"), Var("C"), Or(Var("B"), Var("A"), 6), And(Var("C"), Or(Var("B"), Var("A"), 6), 3)]
  {
    var ab := Or(Var("B"), Var("A"), 6);
    var root := And(Var("C"), ab, 3);
    assert VariableNodes(["A", "B", "C"]) == [Var("A"), Var("B"), Var("C")] by {
      var nodes := VariableNodes(["A", "B", "C"]);
      assert nodes[0].name == "A" && nodes[1].name == "B" && nodes[2].name == "C";
    }
    assert [Var("A"), Var("B"), Var("C")] + [ab, root] == [Var("A"), Var("B"), Var("C"), ab, root];
    GroupLayout();
    GroupReduce();
    ParseOfLayout(GroupTokens, GroupSlots, ["A", "B", "C"], [ab, root], [Var("A"), Var("B"), Var("C"), ab, root]);
  }

  /** The printer puts the parentheses back around the OR and only there. */
  lemma GroupPrints()
    ensures Printer.ToString(And(Var("C"), Or(Var("B"), Var("A"), 6), 3)) == "(A + B) * C"
  {
    var ab := Or(Var("B"), Var("A"), 6);
    assert Printer.ExprToString(Var("A"), 9) == "A";
    assert Printer.ExprToString(Var("B"), 9) == "B";
    assert Printer.ExprToString(Var("C"), 4) == "C";
    assert Printer.Body(ab, 9) == "A + B";
    assert Printer.ExprToString(ab, 4) == "(A + B)";
    assert Printer.Body(And(Var("C"), ab, 3), 4) == "(A + B) * C";
  }

  /**
   * `!!A` is outside what the parser handles: the first NOT is selected while its right
   * neighbour is the second, still empty, NOT.
   */
  lemma DoubleNotIsRejected()
    ensures !ReducesCleanly(Lay(["!", "!", "A"]).slots)
  {
    var t := ["!", "!", "A"];
    assert t[..2] == ["!", "!"] && t[..2][..1] == ["!"] && t[..2][..1][..0] == [];
    var slots := [Empty(NOT, 4), Empty(NOT, 4), Filled(Var("A"))];
    assert Lay(["!"]) == Layout(slots[..1], [], 0);
    assert Lay(["!", "!"]) == Layout(slots[..2], [], 0);
    assert Lay(t).slots == slots;
    assert slots[0].Empty? && slots[0].prec == 4;
    assert SelectOperator(slots) == 0;
  }

  const XorBreakdown: seq<Expr> := [Var("A"), Var("B"), Xor(Var("B"), Var("A"), 2)]

  /** One data row of the `A⊕B` table: A is digit 0 of i, B digit 1, and the last column is their XOR. */
  lemma XorRow(table: seq<seq<string>>, i: nat, a: int, b: int)
    requires |table| == 5 && 1 <= i + 1 < 5
    requires TruthTables.VariableCells(table, 2, 2)
    requires TruthTables.ValidBreakdown(XorBreakdown, 2) && TruthTables.ValueCells(table, XorBreakdown, 2)
    requires a == i / 2 && b == i % 2
    ensures IsBit(a) && IsBit(b) && IsBit(Eval(XOR, a, b))
    ensures table[i + 1] == [TruthTables.BitString(a), TruthTables.BitString(b), TruthTables.BitString(Eval(XOR, a, b))]
  {
    assert Bits.Pow2(1) == 2 && Bits.Pow2(0) == 1;
    assert Bits.Digit(2, i, 0) == a && Bits.Digit(2, i, 1) == b;
    var env := TruthTables.RowEnv(XorBreakdown, 2, i);
    assert Value(env, "A") == a && Value(env, "B") == b;
    EvalUsesOperatorTable(XorBreakdown[2], env);
    assert EvalExpr(XorBreakdown[2], env) == Eval(XOR, a, b);
    var row := table[i + 1];
    assert |row| == 3;
    assert row[0] == TruthTables.BitString(a) && row[1] == TruthTables.BitString(b);
    assert row[2] == TruthTables.BitString(Eval(XOR, a, b));
  }

  /** The table of `A⊕B`: the rows count 00, 01, 10, 11 and the last column is 1 exactly when A and B differ. */
  lemma XorTable(table: seq<seq<string>>)
    requires |table| == 5
    requires TruthTables.VariableCells(table, 2, 2)
    requires TruthTables.ValidBreakdown(XorBreakdown, 2) && TruthTables.ValueCells(table, XorBreakdown, 2)
    ensures table[1..] == [["0", "0", "0"], ["0", "1", "1"], ["1", "0", "1"], ["1", "1", "0"]]
  {
    XorRow(table, 0, 0, 0);
    XorRow(table, 1, 0, 1);
    XorRow(table, 2, 1, 0);
    XorRow(table, 3, 1, 1);
  }
}
