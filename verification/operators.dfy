/**
 * The closed operator enumeration of the engine: for each of NOT, AND, XOR and OR its
 * symbol, precedence, associativity, arity and truth function over 0/1 integers.
 */
module Operators {

  import opened Options

  datatype Operator = NOT | AND | XOR | OR

  /** A value the engine treats as a truth value: 0 is false, 1 is true. */
  predicate IsBit(x: int) {
    x == 0 || x == 1
  }

  function Symbol(op: Operator): string {
    match op
    case NOT => "!"
    case AND => "*"
    case XOR => "⊕"
    case OR => "+"
  }

  /** Higher binds tighter. */
  function Precedence(op: Operator): int {
    match op
    case NOT => 4
    case AND => 3
    case XOR => 2
    case OR => 1
  }

  function LeftAssoc(op: Operator): bool {
    match op
    case NOT => false
    case AND => true
    case XOR => true
    case OR => true
  }

  function Arity(op: Operator): nat {
    match op
    case NOT => 1
    case AND => 2
    case XOR => 2
    case OR => 2
  }

  /** The textbook boolean meaning of each operator; the reference the integer rules are checked against. */
  function Truth(op: Operator, a: bool, b: bool): bool {
    match op
    case NOT => !a
    case AND => a && b
    case XOR => a != b
    case OR => a || b
  }

  /**
   * The operator's evaluation rule over integers. On bits it is the boolean truth
   * function; on any integers it still only answers 0 or 1.
   */
  const IntMin: int := -0x8000_0000
  const IntMax: int := 0x7fff_ffff

  /** Reduces x into the 32-bit two's-complement range, modulo 2^32. */
  function Wrap32(x: int): (w: int)
    ensures IntMin <= w <= IntMax
    ensures (w - x) % 0x1_0000_0000 == 0
  {
    (x - IntMin) % 0x1_0000_0000 + IntMin
  }

  /** Java's `int` addition: the exact sum when it fits, otherwise the sum wrapped around. */
  function AddInt32(a: int, b: int): (s: int)
    ensures IntMin <= s <= IntMax
    ensures (s - (a + b)) % 0x1_0000_0000 == 0
    ensures IntMin <= a + b <= IntMax ==> s == a + b
  {
    if IntMin <= a + b <= IntMax then a + b else Wrap32(a + b)
  }

  function Eval(op: Operator, a: int, b: int): (r: int)
    ensures IsBit(r)
    ensures IsBit(a) && IsBit(b) ==> (r == 1 <==> Truth(op, a == 1, b == 1))
  {
    match op
    case NOT => if a == 1 then 0 else 1
    case AND => if AddInt32(a, b) == 2 then 1 else 0
    case XOR => if AddInt32(a, b) == 1 then 1 else 0
    case OR => if AddInt32(a, b) >= 1 then 1 else 0
  }

  /** The sums in the rules are Java `int` sums: two large operands wrap around. */
  lemma SumsWrapAround()
    ensures Eval(OR, IntMax, 1) == 0
    ensures Eval(AND, IntMin, IntMin + 2) == 1
    ensures Eval(XOR, IntMin, IntMin + 1) == 1
  {
  }

  /** Lookup by symbol; None plays the part of the source's null. */
  function FromSymbol(s: string): (r: Option<Operator>)
    ensures r.Some? <==> s in {"!", "*", "⊕", "+"}
    ensures r.Some? ==> Symbol(r.value) == s
  {
    if s == "!" then Some(NOT)
    else if s == "*" then Some(AND)
    else if s == "⊕" then Some(XOR)
    else if s == "+" then Some(OR)
    else None
  }

  function AllOperators(): (ops: set<Operator>)
    ensures forall op: Operator :: op in ops
    ensures |ops| == 4
  {
    var ops := {NOT, AND, XOR, OR};
    EveryOperatorIn(ops);
    ops
  }

  lemma EveryOperatorIn(ops: set<Operator>)
    requires NOT in ops && AND in ops && XOR in ops && OR in ops
    ensures forall op: Operator :: op in ops
  {
    forall op: Operator ensures op in ops {
      match op
      case NOT =>
      case AND =>
      case XOR =>
      case OR =>
    }
  }

  /** Looking up an operator's own symbol gives the operator back, so symbols are distinct. */
  lemma SymbolRoundTrip(op: Operator)
    ensures FromSymbol(Symbol(op)) == Some(op)
  {
  }

  lemma SymbolInjective(a: Operator, b: Operator)
    ensures Symbol(a) == Symbol(b) ==> a == b
  {
    SymbolRoundTrip(a);
    SymbolRoundTrip(b);
  }

  /** NOT > AND > XOR > OR, only NOT is unary and only NOT is not left-associative. */
  lemma OperatorAttributes()
    ensures Precedence(NOT) > Precedence(AND) > Precedence(XOR) > Precedence(OR) >= 1
    ensures forall a: Operator, b: Operator :: Precedence(a) == Precedence(b) ==> a == b
    ensures forall op: Operator :: Arity(op) == 1 <==> op == NOT
    ensures forall op: Operator :: Arity(op) == 2 <==> op != NOT
    ensures forall op: Operator :: !LeftAssoc(op) <==> op == NOT
  {
  }

  /** NOT looks only at its first operand. */
  lemma NotIgnoresSecondOperand(a: int, b: int, b': int)
    ensures Eval(NOT, a, b) == Eval(NOT, a, b')
    ensures Eval(NOT, a, b) == 1 - a || !IsBit(a)
  {
  }

  /** The truth tables of the four operators over bits, written out row by row. */
  lemma TruthTables()
    ensures Eval(NOT, 0, 0) == 1 && Eval(NOT, 1, 0) == 0
    ensures Eval(AND, 0, 0) == 0 && Eval(AND, 0, 1) == 0 && Eval(AND, 1, 0) == 0 && Eval(AND, 1, 1) == 1
    ensures Eval(XOR, 0, 0) == 0 && Eval(XOR, 0, 1) == 1 && Eval(XOR, 1, 0) == 1 && Eval(XOR, 1, 1) == 0
    ensures Eval(OR, 0, 0) == 0 && Eval(OR, 0, 1) == 1 && Eval(OR, 1, 0) == 1 && Eval(OR, 1, 1) == 1
  {
  }
}
