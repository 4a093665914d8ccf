/**
 * The expression tree: variable leaves and NOT/AND/XOR/OR nodes that carry the precedence
 * they were given when parsed. A variable's mutable current value is replaced by an
 * environment from names to integers, so all occurrences of one name share one slot.
 */
module Expressions {

  import opened Operators

  /** Added to an operator's precedence for each enclosing pair of parentheses. */
  const ExtraPrecedence: int := 5
  /** The precedence of NOT, the top of the base scale; also the printer's starting check. */
  const HighestPrecedence: int := 4

  /**
   * As in the source, a binary node's `lTerm` holds the operand that stood to the RIGHT of
   * the operator and `rTerm` the one that stood to its LEFT.
   */
  datatype Expr =
    | Var(name: string)
    | Not(operand: Expr, prec: int)
    | And(lTerm: Expr, rTerm: Expr, prec: int)
    | Xor(lTerm: Expr, rTerm: Expr, prec: int)
    | Or(lTerm: Expr, rTerm: Expr, prec: int)
  {
    /** The stored precedence; a variable keeps 0. */
    function Precedence(): int {
      if Var? then 0 else prec
    }

    predicate IsBinary() {
      And? || Xor? || Or?
    }

    function Op(): Operator
      requires !Var?
    {
      match this
      case Not(_, _) => NOT
      case And(_, _, _) => AND
      case Xor(_, _, _) => XOR
      case Or(_, _, _) => OR
    }
  }

  /**
   * The precedence each kind of operator node is constructed with, before the parenthesis
   * bonus: NOT gets the highest value and each weaker operator one less. It agrees with the
   * operator table.
   */
  function BasePrecedence(op: Operator): (p: int)
    ensures p == Operators.Precedence(op)
    ensures 1 <= p <= HighestPrecedence
  {
    match op
    case NOT => HighestPrecedence
    case AND => HighestPrecedence - 1
    case XOR => HighestPrecedence - 2
    case OR => HighestPrecedence - 3
  }

  /** Builds the binary node for `op` from its right (`lTerm`) and left (`rTerm`) operands. */
  function Binary(op: Operator, lTerm: Expr, rTerm: Expr, prec: int): (e: Expr)
    requires op != NOT
    ensures e.IsBinary() && e.Op() == op && e.lTerm == lTerm && e.rTerm == rTerm && e.prec == prec
  {
    match op
    case AND => And(lTerm, rTerm, prec)
    case XOR => Xor(lTerm, rTerm, prec)
    case OR => Or(lTerm, rTerm, prec)
  }

  type Env = map<string, int>

  /** A variable's current value; a variable nobody has set reads as 0. */
  function Value(env: Env, name: string): int {
    if name in env then env[name] else 0
  }

  predicate BitEnv(env: Env) {
    forall name :: name in env ==> IsBit(env[name])
  }

  /** evalExpr: evaluates the tree against the current variable values. */
  function EvalExpr(e: Expr, env: Env): (r: int)
    ensures !e.Var? ==> IsBit(r)
    ensures BitEnv(env) ==> IsBit(r)
  {
    match e
    case Var(name) => Value(env, name)
    case And(l, r, _) => if EvalExpr(l, env) == 1 && EvalExpr(r, env) == 1 then 1 else 0
    case Or(l, r, _) => if EvalExpr(l, env) == 1 || EvalExpr(r, env) == 1 then 1 else 0
    case Xor(l, r, _) => if AddInt32(EvalExpr(l, env), EvalExpr(r, env)) == 1 then 1 else 0
    case Not(x, _) => if EvalExpr(x, env) == 1 then 0 else 1
  }

  /** The boolean meaning of a tree, independent of the 0/1 encoding. */
  predicate Holds(e: Expr, env: Env) {
    match e
    case Var(name) => Value(env, name) == 1
    case Not(x, _) => !Holds(x, env)
    case And(l, r, _) => Holds(l, env) && Holds(r, env)
    case Xor(l, r, _) => Holds(l, env) != Holds(r, env)
    case Or(l, r, _) => Holds(l, env) || Holds(r, env)
  }

  /** With every variable holding 0 or 1, evaluation yields 1 exactly when the formula is true. */
  lemma {:induction false} EvalAgreesWithTruth(e: Expr, env: Env)
    requires BitEnv(env)
    ensures EvalExpr(e, env) == 1 <==> Holds(e, env)
  {
    match e
    case Var(_) =>
    case Not(x, _) => EvalAgreesWithTruth(x, env);
    case And(l, r, _) => EvalAgreesWithTruth(l, env); EvalAgreesWithTruth(r, env);
    case Xor(l, r, _) => EvalAgreesWithTruth(l, env); EvalAgreesWithTruth(r, env);
    case Or(l, r, _) => EvalAgreesWithTruth(l, env); EvalAgreesWithTruth(r, env);
  }

  /** Each operator node evaluates exactly as the operator table's rule for its operator. */
  lemma EvalUsesOperatorTable(e: Expr, env: Env)
    requires BitEnv(env) && !e.Var?
    ensures e.Not? ==> EvalExpr(e, env) == Operators.Eval(NOT, EvalExpr(e.operand, env), 0)
    ensures e.IsBinary() ==>
      EvalExpr(e, env) == Operators.Eval(e.Op(), EvalExpr(e.lTerm, env), EvalExpr(e.rTerm, env))
  {
  }

  /** XOR adds its operands' values as Java `int`s, so two large values wrap around. */
  lemma XorSumWrapsAround(env: Env)
    requires env == map["A" := IntMin, "B" := IntMin + 1]
    ensures EvalExpr(Xor(Var("A"), Var("B"), 2), env) == 1
  {
  }

  /**
   * Off bits the two disagree: `evalExpr` tests each operand for `== 1`, the table's AND
   * tests `a + b == 2`, so a variable holding 2 makes them differ.
   */
  lemma OffBitOperandsDisagree(env: Env)
    requires env == map["A" := 2, "B" := 0]
    ensures EvalExpr(And(Var("A"), Var("B"), 3), env) == 0
    ensures Operators.Eval(AND, EvalExpr(Var("A"), env), EvalExpr(Var("B"), env)) == 1
  {
  }

  /** The variable names at the leaves, in source (left-to-right) order. */
  function Leaves(e: Expr): seq<string> {
    match e
    case Var(name) => [name]
    case Not(x, _) => Leaves(x)
    case And(l, r, _) => Leaves(r) + Leaves(l)
    case Xor(l, r, _) => Leaves(r) + Leaves(l)
    case Or(l, r, _) => Leaves(r) + Leaves(l)
  }

  /**
   * The token sequence the tree was read from, parentheses left out: a binary node shows its
   * `rTerm`, its symbol, then its `lTerm`.
   */
  function Yield(e: Expr): seq<string> {
    match e
    case Var(name) => [name]
    case Not(x, _) => [Symbol(NOT)] + Yield(x)
    case And(l, r, _) => Yield(r) + [Symbol(AND)] + Yield(l)
    case Xor(l, r, _) => Yield(r) + [Symbol(XOR)] + Yield(l)
    case Or(l, r, _) => Yield(r) + [Symbol(OR)] + Yield(l)
  }

  /** containsVariable: whether a variable of that name occurs in the tree. */
  predicate ContainsVariable(name: string, e: Expr) {
    if e.Var? && e.name == name then true
    else if e.And? then ContainsVariable(name, e.lTerm) || ContainsVariable(name, e.rTerm)
    else if e.Or? then ContainsVariable(name, e.lTerm) || ContainsVariable(name, e.rTerm)
    else if e.Xor? then ContainsVariable(name, e.lTerm) || ContainsVariable(name, e.rTerm)
    else if e.Not? then ContainsVariable(name, e.operand)
    else false
  }

  lemma {:induction false} ContainsVariableIffLeaf(name: string, e: Expr)
    ensures ContainsVariable(name, e) <==> name in Leaves(e)
  {
    match e
    case Var(_) =>
    case Not(x, _) => ContainsVariableIffLeaf(name, x);
    case And(l, r, _) => ContainsVariableIffLeaf(name, l); ContainsVariableIffLeaf(name, r);
    case Xor(l, r, _) => ContainsVariableIffLeaf(name, l); ContainsVariableIffLeaf(name, r);
    case Or(l, r, _) => ContainsVariableIffLeaf(name, l); ContainsVariableIffLeaf(name, r);
  }

  /** A tree's value depends only on the variables it contains. */
  lemma {:induction false} EvalDependsOnlyOnContainedVariables(e: Expr, env1: Env, env2: Env)
    requires forall name :: ContainsVariable(name, e) ==> Value(env1, name) == Value(env2, name)
    ensures EvalExpr(e, env1) == EvalExpr(e, env2)
  {
    match e
    case Var(_) =>
    case Not(x, _) =>
      EvalDependsOnlyOnContainedVariables(x, env1, env2);
    case And(l, r, _) =>
      EvalDependsOnlyOnContainedVariables(l, env1, env2);
      EvalDependsOnlyOnContainedVariables(r, env1, env2);
    case Xor(l, r, _) =>
      EvalDependsOnlyOnContainedVariables(l, env1, env2);
      EvalDependsOnlyOnContainedVariables(r, env1, env2);
    case Or(l, r, _) =>
      EvalDependsOnlyOnContainedVariables(l, env1, env2);
      EvalDependsOnlyOnContainedVariables(r, env1, env2);
  }

  /** numOfVariables(Expression): counts variable occurrences, so a repeated name counts each time. */
  function NumOfVariables(e: Expr): (n: nat) {
    match e
    case And(l, r, _) => NumOfVariables(l) + NumOfVariables(r)
    case Or(l, r, _) => NumOfVariables(l) + NumOfVariables(r)
    case Xor(l, r, _) => NumOfVariables(l) + NumOfVariables(r)
    case Not(x, _) => NumOfVariables(x)
    case Var(_) => 1
  }

  /** The count is the number of leaves, which can exceed the number of distinct names. */
  lemma {:induction false} NumOfVariablesCountsLeaves(e: Expr)
    ensures NumOfVariables(e) == |Leaves(e)|
    ensures NumOfVariables(e) >= |set i | 0 <= i < |Leaves(e)| :: Leaves(e)[i]|
  {
    DistinctAtMostLength(Leaves(e));
    match e
    case Var(_) =>
    case Not(x, _) => NumOfVariablesCountsLeaves(x);
    case And(l, r, _) => NumOfVariablesCountsLeaves(l); NumOfVariablesCountsLeaves(r);
    case Xor(l, r, _) => NumOfVariablesCountsLeaves(l); NumOfVariablesCountsLeaves(r);
    case Or(l, r, _) => NumOfVariablesCountsLeaves(l); NumOfVariablesCountsLeaves(r);
  }

  lemma {:induction false} DistinctAtMostLength(s: seq<string>)
    ensures |set i | 0 <= i < |s| :: s[i]| <= |s|
  {
    if s != [] {
      var init := s[..|s| - 1];
      DistinctAtMostLength(init);
      var a := set i | 0 <= i < |init| :: init[i];
      var b := set i | 0 <= i < |s| :: s[i];
      assert b <= a + {s[|s| - 1]} by {
        forall x | x in b ensures x in a + {s[|s| - 1]} {
          var i :| 0 <= i < |s| && s[i] == x;
          if i < |s| - 1 {
            assert init[i] == x;
          }
        }
      }
      assert |a + {s[|s| - 1]}| <= |a| + 1;
      SubsetCardinality(b, a + {s[|s| - 1]});
    }
  }

  lemma SubsetCardinality(a: set<string>, b: set<string>)
    requires a <= b
    ensures |a| <= |b|
  {
    assert b == a + (b - a);
  }

  /** numOfVariables(List): how many entries of a column list are variables. */
  function NumOfVariablesIn(subExprs: seq<Expr>): (count: nat)
    ensures count <= |subExprs|
    ensures count == |subExprs| <==> forall i :: 0 <= i < |subExprs| ==> subExprs[i].Var?
    ensures count == 0 <==> forall i :: 0 <= i < |subExprs| ==> !subExprs[i].Var?
  {
    if subExprs == [] then 0
    else
      var rest := NumOfVariablesIn(subExprs[1..]);
      assert forall i :: 1 <= i < |subExprs| ==> subExprs[i] == subExprs[1..][i - 1];
      (if subExprs[0].Var? then 1 else 0) + rest
  }

  /**
   * The list count is additive: a concatenation counts the variables of both parts.
   * With the one-entry case fixed by the contract above (1 for a variable, 0 otherwise),
   * this pins the count of any list to its number of variable entries.
   */
  lemma {:induction false} NumOfVariablesInAppend(a: seq<Expr>, b: seq<Expr>)
    ensures NumOfVariablesIn(a + b) == NumOfVariablesIn(a) + NumOfVariablesIn(b)
    decreases |a|
  {
    if a == [] {
      assert a + b == b;
    } else {
      assert (a + b)[0] == a[0];
      assert (a + b)[1..] == a[1..] + b;
      NumOfVariablesInAppend(a[1..], b);
    }
  }

  /** A mixed list counts its variable entries wherever they stand. */
  lemma MixedListCount(a: Expr, b: Expr)
    requires a.Var? && b.Var?
    ensures NumOfVariablesIn([a, Not(a, 4), b, And(a, b, 3)]) == 2
  {
    var s := [a, Not(a, 4), b, And(a, b, 3)];
    assert s == [a, Not(a, 4)] + [b, And(a, b, 3)];
    NumOfVariablesInAppend([a, Not(a, 4)], [b, And(a, b, 3)]);
    assert [a, Not(a, 4)] == [a] + [Not(a, 4)];
    NumOfVariablesInAppend([a], [Not(a, 4)]);
    assert [b, And(a, b, 3)] == [b] + [And(a, b, 3)];
    NumOfVariablesInAppend([b], [And(a, b, 3)]);
  }

  /** A column list of variables followed by compound nodes counts exactly its variables. */
  lemma {:induction false} NumOfVariablesInPrefix(vs: seq<Expr>, ops: seq<Expr>)
    requires forall i :: 0 <= i < |vs| ==> vs[i].Var?
    requires forall i :: 0 <= i < |ops| ==> !ops[i].Var?
    ensures NumOfVariablesIn(vs + ops) == |vs|
    decreases |vs|
  {
    if vs == [] {
      assert vs + ops == ops;
    } else {
      assert (vs + ops)[1..] == vs[1..] + ops;
      NumOfVariablesInPrefix(vs[1..], ops);
    }
  }

  /** The largest precedence stored anywhere in the tree (variables count as 0). */
  function MaxPrecedence(e: Expr): (m: int)
    ensures m >= e.Precedence() && m >= 0
  {
    match e
    case Var(_) => 0
    case Not(x, p) => Max(p, MaxPrecedence(x))
    case And(l, r, p) => Max(p, Max(MaxPrecedence(l), MaxPrecedence(r)))
    case Xor(l, r, p) => Max(p, Max(MaxPrecedence(l), MaxPrecedence(r)))
    case Or(l, r, p) => Max(p, Max(MaxPrecedence(l), MaxPrecedence(r)))
  }

  function Max(a: int, b: int): int {
    if a < b then b else a
  }
}
