/**
 * toString/exprToString: prints a tree back in infix form, `rTerm op lTerm`, wrapping a node
 * in parentheses exactly when its stored precedence exceeds the current check; each pair of
 * parentheses raises the check by the parenthesis bonus for everything inside it.
 */
module Printer {

  import opened Operators
  import opened Expressions
  import opened Seqs
  import Tokenizer

  function ExprToString(e: Expr, check: int): string
    decreases e, 1
  {
    var wrap := e.Precedence() > check;
    var inner := if wrap then check + ExtraPrecedence else check;
    var body := Body(e, inner);
    if wrap then "(" + body + ")" else body
  }

  /** The node printed without its own parentheses, children printed against `inner`. */
  function Body(e: Expr, inner: int): string
    decreases e, 0
  {
    match e
    case And(l, r, _) => ExprToString(r, inner) + " * " + ExprToString(l, inner)
    case Or(l, r, _) => ExprToString(r, inner) + " + " + ExprToString(l, inner)
    case Xor(l, r, _) => ExprToString(r, inner) + " ⊕ " + ExprToString(l, inner)
    case Not(x, _) => "!" + ExprToString(x, inner)
    case Var(name) => name
  }

  /** toString: printing starts with the check at the highest base precedence. */
  function ToString(e: Expr): string {
    ExprToString(e, HighestPrecedence)
  }

  predicate IsParen(c: char) {
    c == '(' || c == ')'
  }

  /** A name the printer can show unambiguously: no parentheses and no spaces in it. */
  predicate CleanName(name: string) {
    forall i :: 0 <= i < |name| ==> !IsParen(name[i]) && name[i] != ' '
  }

  predicate CleanNames(e: Expr) {
    match e
    case Var(name) => CleanName(name)
    case Not(x, _) => CleanNames(x)
    case And(l, r, _) => CleanNames(l) && CleanNames(r)
    case Xor(l, r, _) => CleanNames(l) && CleanNames(r)
    case Or(l, r, _) => CleanNames(l) && CleanNames(r)
  }

  /** Deletes parentheses and spaces, keeping everything else in order. */
  function Strip(s: string): (r: string)
    ensures |r| <= |s|
  {
    if s == [] then []
    else (if IsParen(s[0]) || s[0] == ' ' then [] else [s[0]]) + Strip(s[1..])
  }

  lemma {:induction false} StripAppend(a: string, b: string)
    ensures Strip(a + b) == Strip(a) + Strip(b)
  {
    if a == [] {
      assert a + b == b;
    } else {
      assert (a + b)[1..] == a[1..] + b;
      StripAppend(a[1..], b);
    }
  }

  lemma {:induction false} StripClean(name: string)
    requires CleanName(name)
    ensures Strip(name) == name
  {
    if name != [] {
      StripClean(name[1..]);
    }
  }

  lemma StripOperator(l: string, sym: string, r: string)
    requires |sym| == 1 && !IsParen(sym[0]) && sym[0] != ' '
    ensures Strip(l + " " + sym + " " + r) == Strip(l) + sym + Strip(r)
  {
    var a := l + " ";
    var b := a + sym;
    var c := b + " ";
    StripAppend(c, r);
    StripAppend(b, " ");
    StripAppend(a, sym);
    StripAppend(l, " ");
    assert Strip(" ") == [] by {
      assert " "[1..] == [];
    }
    assert Strip(sym) == sym by {
      assert sym[1..] == [];
    }
  }

  lemma StripWrap(s: string)
    ensures Strip("(" + s + ")") == Strip(s)
  {
    StripAppend("(" + s, ")");
    StripAppend("(", s);
  }

  /**
   * Deleting the parentheses and spaces from the printed form leaves the tokens of the tree
   * in source order: printing `rTerm` before `lTerm` undoes the parser's swapped storage.
   */
  lemma {:induction false} PrintedTokensInSourceOrder(e: Expr, check: int)
    requires CleanNames(e)
    ensures Strip(ExprToString(e, check)) == Concat(Yield(e))
    decreases e, 1
  {
    var wrap := e.Precedence() > check;
    var inner := if wrap then check + ExtraPrecedence else check;
    StripWrap(Body(e, inner));
    BodyTokensInSourceOrder(e, inner);
  }

  lemma {:induction false} BodyTokensInSourceOrder(e: Expr, inner: int)
    requires CleanNames(e)
    ensures Strip(Body(e, inner)) == Concat(Yield(e))
    decreases e, 0
  {
    match e {
      case Var(name) =>
        StripClean(name);
      case Not(x, _) =>
        PrintedTokensInSourceOrder(x, inner);
        StripAppend("!", ExprToString(x, inner));
        ConcatAppend([Symbol(NOT)], Yield(x));
      case _ =>
        PrintedTokensInSourceOrder(e.lTerm, inner);
        PrintedTokensInSourceOrder(e.rTerm, inner);
        BinaryBody(e, inner);
    }
  }

  /** A binary node's body strips to its left operand's tokens, its symbol, then its right operand's. */
  lemma BinaryBody(e: Expr, inner: int)
    requires e.IsBinary()
    requires Strip(ExprToString(e.rTerm, inner)) == Concat(Yield(e.rTerm))
    requires Strip(ExprToString(e.lTerm, inner)) == Concat(Yield(e.lTerm))
    ensures Strip(Body(e, inner)) == Concat(Yield(e))
  {
    var sym := Symbol(e.Op());
    var a := ExprToString(e.rTerm, inner);
    var b := ExprToString(e.lTerm, inner);
    assert Body(e, inner) == a + " " + sym + " " + b;
    assert Yield(e) == Yield(e.rTerm) + [sym] + Yield(e.lTerm);
    StripOperator(a, sym, b);
    ConcatOfBinary(Yield(e.rTerm), sym, Yield(e.lTerm));
  }

  lemma ConcatOfBinary(a: seq<string>, sym: string, b: seq<string>)
    ensures Concat(a + [sym] + b) == Concat(a) + sym + Concat(b)
  {
    ConcatAppend(a + [sym], b);
    ConcatAppend(a, [sym]);
  }

  /** Opening minus closing parentheses. */
  function Excess(s: string): int {
    if s == [] then 0
    else (if s[0] == '(' then 1 else if s[0] == ')' then -1 else 0) + Excess(s[1..])
  }

  /** Every prefix opens at least as many parentheses as it closes, and the whole closes them all. */
  predicate Balanced(s: string) {
    Excess(s) == 0 && forall i :: 0 <= i <= |s| ==> Excess(s[..i]) >= 0
  }

  /** The string is one parenthesised group: its first '(' is matched by its last ')'. */
  predicate OuterPair(s: string) {
    && |s| >= 2 && s[0] == '(' && s[|s| - 1] == ')'
    && forall i :: 1 <= i < |s| ==> Excess(s[..i]) >= 1
  }

  predicate NoParens(s: string) {
    forall i :: 0 <= i < |s| ==> !IsParen(s[i])
  }

  lemma {:induction false} ExcessAppend(a: string, b: string)
    ensures Excess(a + b) == Excess(a) + Excess(b)
  {
    if a == [] {
      assert a + b == b;
    } else {
      assert (a + b)[1..] == a[1..] + b;
      ExcessAppend(a[1..], b);
    }
  }

  lemma {:induction false} ExcessNoParens(s: string)
    requires NoParens(s)
    ensures Excess(s) == 0
  {
    if s != [] {
      ExcessNoParens(s[1..]);
    }
  }

  lemma BalancedNoParens(s: string)
    requires NoParens(s)
    ensures Balanced(s)
  {
    forall i | 0 <= i <= |s| ensures Excess(s[..i]) == 0 {
      ExcessNoParens(s[..i]);
    }
    ExcessNoParens(s);
  }

  lemma BalancedAppend(a: string, b: string)
    requires Balanced(a) && Balanced(b)
    ensures Balanced(a + b)
  {
    ExcessAppend(a, b);
    forall i | 0 <= i <= |a + b| ensures Excess((a + b)[..i]) >= 0 {
      if i <= |a| {
        assert (a + b)[..i] == a[..i];
      } else {
        assert (a + b)[..i] == a + b[..i - |a|];
        ExcessAppend(a, b[..i - |a|]);
      }
    }
  }

  lemma WrapIsOuterPair(s: string)
    requires Balanced(s)
    ensures Balanced("(" + s + ")") && OuterPair("(" + s + ")")
  {
    var w := "(" + s + ")";
    assert w == "(" + (s + ")");
    ExcessAppend("(", s + ")");
    ExcessAppend(s, ")");
    forall i | 1 <= i < |w| ensures Excess(w[..i]) >= 1 {
      assert w[..i] == "(" + s[..i - 1];
      ExcessAppend("(", s[..i - 1]);
    }
    assert w[..0] == [];
    assert w[..|w|] == w;
  }

  /** The printed form is always properly parenthesised. */
  lemma {:induction false} PrintedBalanced(e: Expr, check: int)
    requires CleanNames(e)
    ensures Balanced(ExprToString(e, check))
    decreases e, 1
  {
    var wrap := e.Precedence() > check;
    var inner := if wrap then check + ExtraPrecedence else check;
    BodyBalanced(e, inner);
    if wrap {
      WrapIsOuterPair(Body(e, inner));
    }
  }

  lemma {:induction false} BodyBalanced(e: Expr, inner: int)
    requires CleanNames(e)
    ensures Balanced(Body(e, inner))
    decreases e, 0
  {
    match e {
      case Var(name) =>
        BalancedNoParens(name);
      case Not(x, _) =>
        PrintedBalanced(x, inner);
        BalancedNoParens("!");
        BalancedAppend("!", ExprToString(x, inner));
      case And(l, r, _) =>
        PrintedBalanced(l, inner);
        PrintedBalanced(r, inner);
        BinaryBalanced(ExprToString(r, inner), " * ", ExprToString(l, inner));
      case Xor(l, r, _) =>
        PrintedBalanced(l, inner);
        PrintedBalanced(r, inner);
        BinaryBalanced(ExprToString(r, inner), " ⊕ ", ExprToString(l, inner));
      case Or(l, r, _) =>
        PrintedBalanced(l, inner);
        PrintedBalanced(r, inner);
        BinaryBalanced(ExprToString(r, inner), " + ", ExprToString(l, inner));
    }
  }

  lemma BinaryBalanced(a: string, mid: string, b: string)
    requires Balanced(a) && Balanced(b) && NoParens(mid)
    ensures Balanced(a + mid + b)
  {
    BalancedNoParens(mid);
    BalancedAppend(a, mid);
    BalancedAppend(a + mid, b);
  }

  /**
   * A node's printed form is one parenthesised group exactly when its precedence exceeds
   * the check it is printed against.
   */
  lemma WrappedIffAboveCheck(e: Expr, check: int)
    requires CleanNames(e)
    ensures OuterPair(ExprToString(e, check)) <==> e.Precedence() > check
  {
    var wrap := e.Precedence() > check;
    var inner := if wrap then check + ExtraPrecedence else check;
    BodyBalanced(e, inner);
    if wrap {
      WrapIsOuterPair(Body(e, inner));
    } else {
      BodyIsNotOuterPair(e, inner);
    }
  }

  lemma BodyIsNotOuterPair(e: Expr, inner: int)
    requires CleanNames(e)
    ensures !OuterPair(Body(e, inner))
  {
    var s := Body(e, inner);
    match e {
      case Var(name) =>
        if |name| > 0 {
          assert !IsParen(name[0]);
        }
      case Not(x, _) =>
        assert s[0] == '!';
      case And(l, r, _) =>
        PrintedBalanced(r, inner);
        LeftGroupCloses(ExprToString(r, inner), " * ", ExprToString(l, inner));
      case Xor(l, r, _) =>
        PrintedBalanced(r, inner);
        LeftGroupCloses(ExprToString(r, inner), " ⊕ ", ExprToString(l, inner));
      case Or(l, r, _) =>
        PrintedBalanced(r, inner);
        LeftGroupCloses(ExprToString(r, inner), " + ", ExprToString(l, inner));
    }
  }

  /** `a mid b` with `a` balanced cannot be a single group: all of `a`'s parentheses close before `mid`. */
  lemma LeftGroupCloses(a: string, mid: string, b: string)
    requires Balanced(a) && |mid| > 0 && mid[0] == ' '
    ensures !OuterPair(a + mid + b)
  {
    var s := a + mid + b;
    if a == [] {
      assert s[0] == ' ';
    } else {
      assert s[..|a|] == a;
      assert Excess(s[..|a|]) == 0;
    }
  }

  /** A tree whose precedences all stay within the check prints without any parenthesis. */
  lemma {:induction false} FlatTreePrintsWithoutParens(e: Expr, check: int)
    requires CleanNames(e) && MaxPrecedence(e) <= check
    ensures NoParens(ExprToString(e, check))
    decreases e, 1
  {
    BodyWithoutParens(e, check);
  }

  lemma {:induction false} BodyWithoutParens(e: Expr, check: int)
    requires CleanNames(e) && MaxPrecedence(e) <= check
    ensures NoParens(Body(e, check))
    decreases e, 0
  {
    match e {
      case Var(name) =>
      case Not(x, _) =>
        FlatTreePrintsWithoutParens(x, check);
        NoParensAppend("!", ExprToString(x, check));
      case And(l, r, _) =>
        FlatTreePrintsWithoutParens(l, check);
        FlatTreePrintsWithoutParens(r, check);
        NoParensAppend(ExprToString(r, check), " * ");
        NoParensAppend(ExprToString(r, check) + " * ", ExprToString(l, check));
      case Xor(l, r, _) =>
        FlatTreePrintsWithoutParens(l, check);
        FlatTreePrintsWithoutParens(r, check);
        NoParensAppend(ExprToString(r, check), " ⊕ ");
        NoParensAppend(ExprToString(r, check) + " ⊕ ", ExprToString(l, check));
      case Or(l, r, _) =>
        FlatTreePrintsWithoutParens(l, check);
        FlatTreePrintsWithoutParens(r, check);
        NoParensAppend(ExprToString(r, check), " + ");
        NoParensAppend(ExprToString(r, check) + " + ", ExprToString(l, check));
    }
  }

  lemma NoParensAppend(a: string, b: string)
    requires NoParens(a) && NoParens(b)
    ensures NoParens(a + b)
  {
    forall i | 0 <= i < |a + b| ensures !IsParen((a + b)[i]) {
      if i < |a| {
        assert (a + b)[i] == a[i];
      } else {
        assert (a + b)[i] == b[i - |a|];
      }
    }
  }

  lemma {:induction false} StripWithoutParens(s: string)
    requires NoParens(s)
    ensures Strip(s) == Tokenizer.RemoveSpaces(s)
  {
    if s != [] {
      StripWithoutParens(s[1..]);
    }
  }

  /**
   * A tree printed with no parentheses reads, spaces aside, exactly as its tokens in source
   * order.
   */
  lemma FlatTreePrintsItsTokens(e: Expr, check: int)
    requires CleanNames(e) && MaxPrecedence(e) <= check
    ensures Tokenizer.RemoveSpaces(ExprToString(e, check)) == Concat(Yield(e))
  {
    FlatTreePrintsWithoutParens(e, check);
    StripWithoutParens(ExprToString(e, check));
    PrintedTokensInSourceOrder(e, check);
  }
}
