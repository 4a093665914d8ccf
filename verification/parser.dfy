/**
 * parseToExpr: the precedence-driven parser. Tokens are first laid out in a working list
 * (variables as finished leaves, each operator as an empty node whose precedence is its base
 * value plus the parenthesis bonus for every enclosing pair); then the leftmost empty
 * operator of highest precedence is joined with its neighbours, again and again, until one
 * entry is left. The result ("breakdown") lists each distinct variable once, in order of
 * first appearance, followed by every operator node in the order it was joined.
 */
module Parser {

  import opened Options
  import opened Operators
  import opened Expressions
  import opened Seqs
  import Tokenizer

  /** An entry of the working list: a finished tree, or an operator whose operands are still missing. */
  datatype Slot = Filled(e: Expr) | Empty(op: Operator, prec: int)

  /** The parser's state after reading a prefix of the tokens. */
  datatype Layout = Layout(slots: seq<Slot>, vars: seq<string>, extra: int)

  /** The token tests, in the order the parser makes them (each is a containment test). */
  predicate IsParenToken(t: string) {
    '(' in t || ')' in t
  }

  function OperatorOf(t: string): Option<Operator> {
    if '!' in t then Some(NOT)
    else if '*' in t then Some(AND)
    else if '⊕' in t then Some(XOR)
    else if '+' in t then Some(OR)
    else None
  }

  predicate IsVariableToken(t: string) {
    !IsParenToken(t) && OperatorOf(t).None?
  }

  /** One iteration of the layout loop. */
  function LayToken(st: Layout, t: string): Layout {
    if '(' in t then st.(extra := st.extra + ExtraPrecedence)
    else if ')' in t then st.(extra := st.extra - ExtraPrecedence)
    else if OperatorOf(t).Some? then
      var op := OperatorOf(t).value;
      st.(slots := st.slots + [Empty(op, BasePrecedence(op) + st.extra)])
    else if t in st.vars then st.(slots := st.slots + [Filled(Var(t))])
    else Layout(st.slots + [Filled(Var(t))], st.vars + [t], st.extra)
  }

  /** The layout loop run over all the tokens. */
  function Lay(tokens: seq<string>): Layout
    decreases |tokens|
  {
    if tokens == [] then Layout([], [], 0)
    else LayToken(Lay(tokens[..|tokens| - 1]), tokens[|tokens| - 1])
  }

  /** Open minus closed parentheses among the tokens. */
  function Depth(tokens: seq<string>): int
    decreases |tokens|
  {
    if tokens == [] then 0
    else
      var t := tokens[|tokens| - 1];
      Depth(tokens[..|tokens| - 1]) + (if '(' in t then 1 else if ')' in t then -1 else 0)
  }

  /** The tokens with the parentheses left out. */
  function NonParen(tokens: seq<string>): seq<string>
    decreases |tokens|
  {
    if tokens == [] then []
    else
      var t := tokens[|tokens| - 1];
      NonParen(tokens[..|tokens| - 1]) + (if IsParenToken(t) then [] else [t])
  }

  /** The variable-name tokens, in order, repeats included. */
  function NameTokens(tokens: seq<string>): seq<string>
    decreases |tokens|
  {
    if tokens == [] then []
    else
      var t := tokens[|tokens| - 1];
      NameTokens(tokens[..|tokens| - 1]) + (if IsVariableToken(t) then [t] else [])
  }

  /** Where `x` first occurs in `s`. */
  function FirstIndex(s: seq<string>, x: string): (i: nat)
    requires x in s
    ensures i < |s| && s[i] == x
    ensures forall j :: 0 <= j < i ==> s[j] != x
  {
    if s[0] == x then 0 else 1 + FirstIndex(s[1..], x)
  }

  lemma FirstIndexExtend(s: seq<string>, y: string, x: string)
    requires x in s
    ensures FirstIndex(s + [y], x) == FirstIndex(s, x)
  {
    var i := FirstIndex(s, x);
    assert (s + [y])[i] == x;
  }

  lemma FirstIndexNew(s: seq<string>, x: string)
    requires x !in s
    ensures FirstIndex(s + [x], x) == |s|
  {
    assert (s + [x])[|s|] == x;
  }

  /** The layout's running parenthesis bonus is the bonus times the current nesting depth. */
  lemma {:induction false} LayExtra(tokens: seq<string>)
    ensures Lay(tokens).extra == ExtraPrecedence * Depth(tokens)
    decreases |tokens|
  {
    if tokens != [] {
      LayExtra(tokens[..|tokens| - 1]);
    }
  }

  /** One working-list entry per non-parenthesis token. */
  lemma {:induction false} LaySlotCount(tokens: seq<string>)
    ensures |Lay(tokens).slots| == |NonParen(tokens)|
    decreases |tokens|
  {
    if tokens != [] {
      LaySlotCount(tokens[..|tokens| - 1]);
    }
  }

  /** Each distinct variable is recorded once, and the recorded ones are exactly the names that occur. */
  lemma {:induction false} LayVariableSet(tokens: seq<string>)
    ensures var vars := Lay(tokens).vars;
      && (forall i, j :: 0 <= i < j < |vars| ==> vars[i] != vars[j])
      && (forall x :: x in vars <==> x in NameTokens(tokens))
    decreases |tokens|
  {
    if tokens != [] {
      var init := tokens[..|tokens| - 1];
      var t := tokens[|tokens| - 1];
      LayVariableSet(init);
      var vars0 := Lay(init).vars;
      assert Lay(tokens) == LayToken(Lay(init), t);
      if IsVariableToken(t) {
        assert NameTokens(tokens) == NameTokens(init) + [t];
        if t !in vars0 {
          var vars := vars0 + [t];
          assert Lay(tokens).vars == vars;
          forall i, j | 0 <= i < j < |vars| ensures vars[i] != vars[j] {
            assert vars[i] == vars0[i];
            if j < |vars0| {
              assert vars[j] == vars0[j];
            } else {
              assert vars[j] == t;
              assert vars0[i] in vars0;
            }
          }
        } else {
          assert Lay(tokens).vars == vars0;
        }
      } else {
        assert NameTokens(tokens) == NameTokens(init);
        assert Lay(tokens).vars == vars0;
      }
    }
  }

  /** Every entry of vars occurs in names, and earlier entries occur there first. */
  predicate FirstAppearanceOrder(vars: seq<string>, names: seq<string>) {
    forall i, j :: 0 <= i < j < |vars| ==>
      vars[i] in names && vars[j] in names && FirstIndex(names, vars[i]) < FirstIndex(names, vars[j])
  }

  /** The recorded variables are kept in order of first appearance. */
  lemma {:induction false} LayVariableOrder(tokens: seq<string>)
    ensures FirstAppearanceOrder(Lay(tokens).vars, NameTokens(tokens))
    decreases |tokens|
  {
    if tokens != [] {
      var init := tokens[..|tokens| - 1];
      var t := tokens[|tokens| - 1];
      LayVariableOrder(init);
      LayVariableSet(init);
      LayVariableSet(tokens);
      var vars0 := Lay(init).vars;
      var names0 := NameTokens(init);
      var vars := Lay(tokens).vars;
      var names := NameTokens(tokens);
      if IsVariableToken(t) {
        assert names == names0 + [t];
        forall x | x in names0 ensures FirstIndex(names, x) == FirstIndex(names0, x) {
          FirstIndexExtend(names0, t, x);
        }
        if t !in vars0 {
          assert vars == vars0 + [t];
          FirstIndexNew(names0, t);
          forall i, j | 0 <= i < j < |vars|
            ensures FirstIndex(names, vars[i]) < FirstIndex(names, vars[j])
          {
            assert vars[i] == vars0[i];
            if j < |vars0| {
              assert vars[j] == vars0[j];
            }
          }
        }
      } else {
        assert names == names0;
      }
    }
  }

  /** The working list grows only at its end, and so does the variable list. */
  lemma {:induction false} LayPrefix(tokens: seq<string>, m: nat)
    requires m <= |tokens|
    ensures Lay(tokens[..m]).slots <= Lay(tokens).slots
    ensures Lay(tokens[..m]).vars <= Lay(tokens).vars
    decreases |tokens| - m
  {
    if m < |tokens| {
      var init := tokens[..|tokens| - 1];
      assert init[..m] == tokens[..m];
      LayPrefix(init, m);
    } else {
      assert tokens[..m] == tokens;
    }
  }

  /**
   * The entry for token k sits at position "number of non-parenthesis tokens before k": an
   * operator gets an empty node whose precedence is its base plus the bonus times the depth
   * at that point; a name gets its variable leaf.
   */
  lemma SlotOfToken(tokens: seq<string>, k: nat)
    requires k < |tokens| && !IsParenToken(tokens[k])
    ensures var p := |NonParen(tokens[..k])|;
      && p < |Lay(tokens).slots|
      && (OperatorOf(tokens[k]).Some? ==>
            var op := OperatorOf(tokens[k]).value;
            Lay(tokens).slots[p] == Empty(op, BasePrecedence(op) + ExtraPrecedence * Depth(tokens[..k])))
      && (OperatorOf(tokens[k]).None? ==> Lay(tokens).slots[p] == Filled(Var(tokens[k])))
  {
    var pre := tokens[..k];
    var upTo := tokens[..k + 1];
    assert upTo[..k] == pre;
    assert upTo[k] == tokens[k];
    LaySlotCount(pre);
    LayExtra(pre);
    LayPrefix(tokens, k + 1);
    var p := |NonParen(pre)|;
    assert Lay(upTo).slots == Lay(pre).slots + [Lay(upTo).slots[p]];
  }

  /** The tokens an entry stands for: a tree's yield, or an empty operator's own symbol. */
  function SlotYield(s: Slot): seq<string> {
    if s.Filled? then Yield(s.e) else [Symbol(s.op)]
  }

  function ListYield(items: seq<Slot>): seq<string> {
    if items == [] then [] else SlotYield(items[0]) + ListYield(items[1..])
  }

  lemma {:induction false} ListYieldAppend(a: seq<Slot>, b: seq<Slot>)
    ensures ListYield(a + b) == ListYield(a) + ListYield(b)
  {
    if a == [] {
      assert a + b == b;
    } else {
      assert (a + b)[1..] == a[1..] + b;
      ListYieldAppend(a[1..], b);
    }
  }

  /** A name as the tokenizer emits it: non-blank, no delimiter and no space. */
  predicate GoodName(name: string) {
    Tokenizer.IsNameToken(name) && ' ' !in name
  }

  predicate GoodNames(e: Expr) {
    match e
    case Var(name) => GoodName(name)
    case Not(x, _) => GoodNames(x)
    case And(l, r, _) => GoodNames(l) && GoodNames(r)
    case Xor(l, r, _) => GoodNames(l) && GoodNames(r)
    case Or(l, r, _) => GoodNames(l) && GoodNames(r)
  }

  predicate GoodSlot(s: Slot) {
    s.Filled? ==> GoodNames(s.e)
  }

  /** Tokens shaped as the tokenizer emits them. */
  predicate TokenizerShaped(tokens: seq<string>) {
    forall i :: 0 <= i < |tokens| ==> Tokenizer.IsToken(tokens[i]) && ' ' !in tokens[i]
  }

  lemma ShapedPrefix(tokens: seq<string>, m: nat)
    requires TokenizerShaped(tokens) && m <= |tokens|
    ensures TokenizerShaped(tokens[..m])
  {
    assert forall i :: 0 <= i < m ==> tokens[..m][i] == tokens[i];
  }

  /** A tokenizer-shaped operator token is exactly its operator's symbol. */
  lemma ShapedOperatorToken(t: string)
    requires Tokenizer.IsToken(t) && !IsParenToken(t) && OperatorOf(t).Some?
    ensures t == Symbol(OperatorOf(t).value)
  {
  }

  /** A tokenizer-shaped name token is a good name. */
  lemma ShapedNameToken(t: string)
    requires Tokenizer.IsToken(t) && ' ' !in t && IsVariableToken(t)
    ensures GoodName(t)
  {
  }

  /**
   * Laying out shaped tokens keeps them in order: the working list reads back as the tokens
   * without the parentheses, and every leaf carries a good name.
   */
  lemma {:induction false} LayYield(tokens: seq<string>)
    requires TokenizerShaped(tokens)
    ensures ListYield(Lay(tokens).slots) == NonParen(tokens)
    ensures AllGood(Lay(tokens).slots)
    decreases |tokens|
  {
    if tokens != [] {
      var init := tokens[..|tokens| - 1];
      var t := tokens[|tokens| - 1];
      ShapedPrefix(tokens, |tokens| - 1);
      LayYield(init);
      var slots0 := Lay(init).slots;
      var slots := Lay(tokens).slots;
      if !IsParenToken(t) {
        var s := slots[|slots| - 1];
        assert slots == slots0 + [s];
        ListYieldAppend(slots0, [s]);
        if OperatorOf(t).Some? {
          ShapedOperatorToken(t);
        } else {
          ShapedNameToken(t);
        }
        assert ListYield([s]) == SlotYield(s);
      }
    }
  }

  function EmptyCount(items: seq<Slot>): nat {
    if items == [] then 0 else (if items[0].Empty? then 1 else 0) + EmptyCount(items[1..])
  }

  function FilledCount(items: seq<Slot>): nat {
    if items == [] then 0 else (if items[0].Filled? then 1 else 0) + FilledCount(items[1..])
  }

  lemma {:induction false} CountsAppend(a: seq<Slot>, b: seq<Slot>)
    ensures EmptyCount(a + b) == EmptyCount(a) + EmptyCount(b)
    ensures FilledCount(a + b) == FilledCount(a) + FilledCount(b)
  {
    if a == [] {
      assert a + b == b;
    } else {
      assert (a + b)[1..] == a[1..] + b;
      CountsAppend(a[1..], b);
    }
  }

  /** The number of operator tokens: each becomes one empty entry of the working list. */
  function OperatorCount(tokens: seq<string>): nat
    decreases |tokens|
  {
    if tokens == [] then 0
    else
      var t := tokens[|tokens| - 1];
      OperatorCount(tokens[..|tokens| - 1]) + (if !IsParenToken(t) && OperatorOf(t).Some? then 1 else 0)
  }

  /** The working list holds one empty operator per operator token and one leaf per name token. */
  lemma {:induction false} LayCounts(tokens: seq<string>)
    ensures EmptyCount(Lay(tokens).slots) == OperatorCount(tokens)
    ensures FilledCount(Lay(tokens).slots) == |NameTokens(tokens)|
    decreases |tokens|
  {
    if tokens != [] {
      var init := tokens[..|tokens| - 1];
      var t := tokens[|tokens| - 1];
      LayCounts(init);
      var slots0 := Lay(init).slots;
      var slots := Lay(tokens).slots;
      if !IsParenToken(t) {
        var s := slots[|slots| - 1];
        assert slots == slots0 + [s];
        CountsAppend(slots0, [s]);
      }
    }
  }

  /** Before any join, every filled entry is the leaf of a recorded variable. */
  lemma {:induction false} LayLeaves(tokens: seq<string>)
    ensures forall i :: 0 <= i < |Lay(tokens).slots| && Lay(tokens).slots[i].Filled? ==>
      Lay(tokens).slots[i].e.Var? && Lay(tokens).slots[i].e.name in Lay(tokens).vars
    decreases |tokens|
  {
    if tokens != [] {
      var init := tokens[..|tokens| - 1];
      LayLeaves(init);
      LayPrefix(tokens, |tokens| - 1);
      assert init == tokens[..|tokens| - 1];
    }
  }

  /** Without parentheses every empty operator keeps its base precedence. */
  lemma {:induction false} LayWithoutParens(tokens: seq<string>)
    requires forall i :: 0 <= i < |tokens| ==> !IsParenToken(tokens[i])
    ensures forall i :: 0 <= i < |Lay(tokens).slots| && Lay(tokens).slots[i].Empty? ==>
      Lay(tokens).slots[i].prec == BasePrecedence(Lay(tokens).slots[i].op)
    ensures Lay(tokens).extra == 0
    decreases |tokens|
  {
    if tokens != [] {
      var init := tokens[..|tokens| - 1];
      assert forall i :: 0 <= i < |init| ==> init[i] == tokens[i];
      LayWithoutParens(init);
    }
  }

  /**
   * The scan for the operator to join next, from position i on, with k the best candidate
   * so far (-1 for none) and hp its precedence (0 while there is none): an entry replaces
   * the candidate only if it is an empty operator with strictly higher precedence.
   */
  function SelectFrom(items: seq<Slot>, i: nat, k: int, hp: int): (r: int)
    requires i <= |items| && -1 <= k < i
    requires k == -1 ==> hp == 0
    requires k >= 0 ==> items[k].Empty? && items[k].prec == hp > 0
    requires forall j :: 0 <= j < i && items[j].Empty? ==> items[j].prec <= hp
    requires forall j :: 0 <= j < k && items[j].Empty? ==> items[j].prec < hp
    ensures -1 <= r < |items|
    ensures r >= 0 ==> items[r].Empty? && items[r].prec > 0
    ensures r >= 0 ==> forall j :: 0 <= j < |items| && items[j].Empty? ==> items[j].prec <= items[r].prec
    ensures r >= 0 ==> forall j :: 0 <= j < r && items[j].Empty? ==> items[j].prec < items[r].prec
    ensures r == -1 ==> forall j :: 0 <= j < |items| && items[j].Empty? ==> items[j].prec <= 0
    decreases |items| - i
  {
    if i == |items| then k
    else if items[i].Empty? && items[i].prec > hp then SelectFrom(items, i + 1, i, items[i].prec)
    else SelectFrom(items, i + 1, k, hp)
  }

  /**
   * The leftmost empty operator of strictly highest precedence, or -1 when no empty
   * operator has a positive precedence.
   */
  function SelectOperator(items: seq<Slot>): (k: int)
    ensures -1 <= k < |items|
    ensures k >= 0 ==> items[k].Empty? && items[k].prec > 0
    ensures k >= 0 ==> forall j :: 0 <= j < |items| && items[j].Empty? ==> items[j].prec <= items[k].prec
    ensures k >= 0 ==> forall j :: 0 <= j < k && items[j].Empty? ==> items[j].prec < items[k].prec
    ensures k == -1 <==> forall j :: 0 <= j < |items| && items[j].Empty? ==> items[j].prec <= 0
  {
    SelectFrom(items, 0, -1, 0)
  }

  /**
   * The join can go ahead as the source does it: an operator was found (else the source
   * dereferences null), its neighbours exist (else the list removal fails), and they are
   * finished trees (else the source would build a node with a missing operand).
   */
  predicate CanReduce(items: seq<Slot>) {
    var k := SelectOperator(items);
    && k >= 0 && k + 1 < |items| && items[k + 1].Filled?
    && (items[k].op != NOT ==> k >= 1 && items[k - 1].Filled?)
  }

  /** The list position the joined node takes: the operator's own for NOT, its left neighbour's otherwise. */
  function JoinPosition(items: seq<Slot>): int
    requires CanReduce(items)
  {
    var k := SelectOperator(items);
    if items[k].op == NOT then k else k - 1
  }

  /**
   * One join. NOT takes its right neighbour; a binary operator takes its right neighbour as
   * `lTerm` and its left neighbour as `rTerm`. The operator's precedence stays on the node.
   */
  function Step(items: seq<Slot>): (r: (seq<Slot>, Expr))
    requires CanReduce(items)
    ensures |r.0| == |items| - Arity(items[SelectOperator(items)].op)
    ensures !r.1.Var? && r.1.Op() == items[SelectOperator(items)].op
    ensures r.1.Precedence() == items[SelectOperator(items)].prec
    ensures r.1.Not? ==> r.1.operand == items[SelectOperator(items) + 1].e
    ensures r.1.IsBinary() ==>
      r.1.lTerm == items[SelectOperator(items) + 1].e && r.1.rTerm == items[SelectOperator(items) - 1].e
    ensures r.0[..JoinPosition(items)] == items[..JoinPosition(items)]
    ensures r.0[JoinPosition(items)] == Filled(r.1)
    ensures r.0[JoinPosition(items) + 1..] == items[SelectOperator(items) + 2..]
    ensures ListYield(r.0) == ListYield(items)
    ensures EmptyCount(r.0) == EmptyCount(items) - 1
    ensures FilledCount(r.0) == FilledCount(items) + 1 - Arity(r.1.Op())
    ensures forall j :: 0 <= j < |r.0| && r.0[j].Empty? ==> r.0[j].prec <= r.1.Precedence()
  {
    var k := SelectOperator(items);
    var op := items[k].op;
    var prec := items[k].prec;
    if op == NOT then
      var node := Not(items[k + 1].e, prec);
      var r := (items[..k] + [Filled(node)] + items[k + 2..], node);
      StepFacts(items, k, k, node, r.0);
      StepBound(items, k, k, node, r.0);
      r
    else
      var node := Binary(op, items[k + 1].e, items[k - 1].e, prec);
      var r := (items[..k - 1] + [Filled(node)] + items[k + 2..], node);
      StepFacts(items, k, k - 1, node, r.0);
      StepBound(items, k, k - 1, node, r.0);
      r
  }

  /** The yield and counts of one join, for the joined range p..k+1. */
  lemma StepFacts(items: seq<Slot>, k: int, p: int, node: Expr, items': seq<Slot>)
    requires 0 <= p <= k && k + 1 < |items|
    requires items[k].Empty? && !node.Var? && node.Op() == items[k].op && node.Precedence() == items[k].prec
    requires p == k ==> node.Not? && items[k + 1].Filled? && node.operand == items[k + 1].e
    requires p == k - 1 ==>
      node.IsBinary() && items[p].Filled? && items[k + 1].Filled?
      && node.lTerm == items[k + 1].e && node.rTerm == items[p].e
    requires p == k || p == k - 1
    requires items' == items[..p] + [Filled(node)] + items[k + 2..]
    ensures ListYield(items') == ListYield(items)
    ensures EmptyCount(items') == EmptyCount(items) - 1
    ensures FilledCount(items') == FilledCount(items) + 1 - (k + 1 - p)
  {
    var pre := items[..p];
    var mid := items[p..k + 2];
    var post := items[k + 2..];
    assert items == pre + mid + post;
    Splice(pre, mid, post);
    Splice(pre, [Filled(node)], post);
    if p == k {
      JoinedNot(mid, node);
    } else {
      JoinedBinary(mid, node);
    }
  }

  /** Yield and counts of a list cut into three pieces. */
  lemma Splice(pre: seq<Slot>, mid: seq<Slot>, post: seq<Slot>)
    ensures ListYield(pre + mid + post) == ListYield(pre) + ListYield(mid) + ListYield(post)
    ensures EmptyCount(pre + mid + post) == EmptyCount(pre) + EmptyCount(mid) + EmptyCount(post)
    ensures FilledCount(pre + mid + post) == FilledCount(pre) + FilledCount(mid) + FilledCount(post)
  {
    ListYieldAppend(pre + mid, post);
    ListYieldAppend(pre, mid);
    CountsAppend(pre + mid, post);
    CountsAppend(pre, mid);
  }

  lemma JoinedNot(mid: seq<Slot>, node: Expr)
    requires |mid| == 2 && mid[0].Empty? && mid[0].op == NOT && mid[1].Filled?
    requires node.Not? && node.operand == mid[1].e
    ensures ListYield(mid) == ListYield([Filled(node)])
    ensures EmptyCount(mid) == 1 && FilledCount(mid) == 1
    ensures EmptyCount([Filled(node)]) == 0 && FilledCount([Filled(node)]) == 1
  {
    var rest := mid[1..];
    assert rest[1..] == [];
    assert ListYield(rest) == SlotYield(mid[1]);
    assert EmptyCount(rest) == 0 && FilledCount(rest) == 1;
    assert ListYield(mid) == SlotYield(mid[0]) + ListYield(rest);
    assert [Filled(node)][1..] == [];
  }

  lemma JoinedBinary(mid: seq<Slot>, node: Expr)
    requires |mid| == 3 && mid[0].Filled? && mid[1].Empty? && mid[2].Filled?
    requires node.IsBinary() && node.Op() == mid[1].op && node.lTerm == mid[2].e && node.rTerm == mid[0].e
    ensures ListYield(mid) == ListYield([Filled(node)])
    ensures EmptyCount(mid) == 1 && FilledCount(mid) == 2
    ensures EmptyCount([Filled(node)]) == 0 && FilledCount([Filled(node)]) == 1
  {
    BinaryListYield(mid, node);
    BinaryCounts(mid);
    assert [Filled(node)][1..] == [];
  }

  lemma BinaryListYield(mid: seq<Slot>, node: Expr)
    requires |mid| == 3 && mid[0].Filled? && mid[1].Empty? && mid[2].Filled?
    requires node.IsBinary() && node.Op() == mid[1].op && node.lTerm == mid[2].e && node.rTerm == mid[0].e
    ensures ListYield(mid) == ListYield([Filled(node)])
  {
    var rest := mid[1..];
    var last := rest[1..];
    assert last[1..] == [];
    assert ListYield(last) == SlotYield(mid[2]);
    assert ListYield(rest) == SlotYield(mid[1]) + ListYield(last);
    assert ListYield(mid) == SlotYield(mid[0]) + ListYield(rest);
    assert [Filled(node)][1..] == [];
    BinaryYield(node);
  }

  lemma BinaryCounts(mid: seq<Slot>)
    requires |mid| == 3 && mid[0].Filled? && mid[1].Empty? && mid[2].Filled?
    ensures EmptyCount(mid) == 1 && FilledCount(mid) == 2
  {
    var rest := mid[1..];
    var last := rest[1..];
    assert last[1..] == [];
    assert EmptyCount(last) == 0 && FilledCount(last) == 1;
    assert EmptyCount(rest) == 1 && FilledCount(rest) == 1;
  }

  lemma StepBound(items: seq<Slot>, k: int, p: int, node: Expr, items': seq<Slot>)
    requires 0 <= p <= k && k + 1 < |items| && items[k].Empty?
    requires node.Precedence() == items[k].prec
    requires p == k || p == k - 1
    requires forall j :: 0 <= j < |items| && items[j].Empty? ==> items[j].prec <= items[k].prec
    requires items' == items[..p] + [Filled(node)] + items[k + 2..]
    ensures forall j :: 0 <= j < |items'| && items'[j].Empty? ==> items'[j].prec <= node.Precedence()
  {
    forall j | 0 <= j < |items'| && items'[j].Empty? ensures items'[j].prec <= node.Precedence() {
      if j < p {
        assert items'[j] == items[j];
      } else {
        assert items'[j] == items[j + k + 1 - p];
      }
    }
  }

  lemma BinaryYield(e: Expr)
    requires e.IsBinary()
    ensures Yield(e) == Yield(e.rTerm) + [Symbol(e.Op())] + Yield(e.lTerm)
  {
  }

  /**
   * Well-formedness of a working list: every join the reduction loop performs on it stays
   * within the cases the source handles, until at most one item is left.
   */
  predicate ReducesCleanly(items: seq<Slot>)
    decreases |items|
  {
    |items| <= 1 || (CanReduce(items) && ReducesCleanly(Step(items).0))
  }

  /**
   * The reduction loop: join until at most one item is left. Returns the final list and
   * the joined operator nodes in the order they were built; ReduceResult spells out what
   * they are.
   */
  function Reduce(items: seq<Slot>): (r: (seq<Slot>, seq<Expr>))
    requires ReducesCleanly(items)
    ensures ReduceResult(items, r)
    decreases |items|
  {
    if |items| <= 1 then
      assert |items| == 1 ==> FilledCount(items[1..]) == 0;
      (items, [])
    else
      var step := Step(items);
      var rest := Reduce(step.0);
      ReduceChain(items, step.0, step.1, rest, SelectOperator(items), JoinPosition(items));
      (rest.0, [step.1] + rest.1)
  }

  /** One turn of the reduction loop: the first join, followed by the reduction of what it leaves. */
  lemma ReduceUnfolds(items: seq<Slot>, next: seq<Slot>, node: Expr, last: seq<Slot>, ops: seq<Expr>)
    requires ReducesCleanly(items) && |items| > 1
    requires Step(items) == (next, node) && Reduce(next) == (last, ops)
    ensures Reduce(items) == (last, [node] + ops)
  {
  }

  /**
   * What the reduction loop delivers: at most one item is left, the list's token yield is
   * unchanged, one node per joined operator, and once anything is joined the last node is
   * the one item left; the nodes come in order of non-increasing precedence, starting from
   * the highest one in the list.
   */
  predicate ReduceResult(items: seq<Slot>, r: (seq<Slot>, seq<Expr>)) {
    && |r.0| <= 1
    && ListYield(r.0) == ListYield(items)
    && |r.1| == EmptyCount(items) - EmptyCount(r.0)
    && (FilledCount(items) >= 1 ==> |r.0| == 1 && r.0[0].Filled?)
    && OperatorNodes(r.1)
    && Descending(r.1)
    && (|r.1| > 0 ==> r.0 == [Filled(r.1[|r.1| - 1])])
    && (|r.1| > 0 ==> SelectOperator(items) >= 0 && r.1[0].Precedence() == items[SelectOperator(items)].prec)
    && (|r.1| == 0 ==> r.0 == items)
  }

  /**
   * The facts of one join and of the reduction of what it leaves, put together: `node` was
   * built from the operator at k and sits at position p of the list `next` it leaves.
   */
  lemma ReduceChain(items: seq<Slot>, next: seq<Slot>, node: Expr, rest: (seq<Slot>, seq<Expr>), k: int, p: int)
    requires |items| > 1 && 0 <= k < |items| && SelectOperator(items) == k
    requires 0 <= p < |next| && next[p] == Filled(node) && !node.Var? && node.Precedence() == items[k].prec
    requires ListYield(next) == ListYield(items) && EmptyCount(next) == EmptyCount(items) - 1
    requires forall j :: 0 <= j < |next| && next[j].Empty? ==> next[j].prec <= node.Precedence()
    requires ReduceResult(next, rest)
    ensures ReduceResult(items, (rest.0, [node] + rest.1))
  {
    FilledCountPositive(next, p);
    var ops := [node] + rest.1;
    if |rest.1| == 0 {
      assert |next| == 1;
      assert ops == [node];
      ChainOrder(node, rest.1);
    } else {
      var s := SelectOperator(next);
      assert next[s].Empty?;
      ChainOrder(node, rest.1);
      assert ops[|ops| - 1] == rest.1[|rest.1| - 1];
    }
  }

  /** Every node is an operator node. */
  predicate OperatorNodes(ops: seq<Expr>) {
    forall i :: 0 <= i < |ops| ==> !ops[i].Var?
  }

  /** Node precedences never increase along the list. */
  predicate Descending(ops: seq<Expr>) {
    forall i, j :: 0 <= i < j < |ops| ==> ops[j].Precedence() <= ops[i].Precedence()
  }

  /** Prepending the node joined first keeps the node precedences non-increasing. */
  lemma ChainOrder(node: Expr, later: seq<Expr>)
    requires !node.Var? && OperatorNodes(later) && Descending(later)
    requires |later| > 0 ==> later[0].Precedence() <= node.Precedence()
    ensures OperatorNodes([node] + later) && Descending([node] + later)
  {
    var ops := [node] + later;
    assert forall i :: 1 <= i < |ops| ==> ops[i] == later[i - 1];
    forall i, j | 0 <= i < j < |ops| ensures ops[j].Precedence() <= ops[i].Precedence() {
      if i == 0 {
        assert later[j - 1].Precedence() <= later[0].Precedence();
      }
    }
  }

  lemma {:induction false} FilledCountPositive(items: seq<Slot>, p: int)
    requires 0 <= p < |items| && items[p].Filled?
    ensures FilledCount(items) >= 1
  {
    if p > 0 {
      FilledCountPositive(items[1..], p - 1);
    }
  }

  /**
   * After a join every entry is either untouched (it was already in the list) or the new
   * node, whose operands are entries of the list before the join.
   */
  lemma StepMembers(items: seq<Slot>)
    requires CanReduce(items)
    ensures var r := Step(items);
      && (forall j :: 0 <= j < |r.0| ==> r.0[j] == Filled(r.1) || r.0[j] in items)
      && (r.1.Not? ==> Filled(r.1.operand) in items)
      && (r.1.IsBinary() ==> Filled(r.1.lTerm) in items && Filled(r.1.rTerm) in items)
  {
    var r := Step(items);
    var k := SelectOperator(items);
    var p := JoinPosition(items);
    forall j | 0 <= j < |r.0| ensures r.0[j] == Filled(r.1) || r.0[j] in items {
      if j < p {
        assert r.0[j] == r.0[..p][j] == items[j];
      } else if j > p {
        assert r.0[j] == r.0[p + 1..][j - p - 1] == items[k + 2..][j - p - 1];
      }
    }
  }

  /**
   * Equal precedences group to the left, for every input: when the entry right after a newly
   * joined node is a binary operator of the same precedence with a filled right neighbour,
   * that operator is joined next and takes the new node as its left operand (`rTerm`).
   */
  lemma EqualPrecedenceGroupsLeft(items: seq<Slot>)
    requires CanReduce(items)
    requires JoinPosition(items) + 2 < |Step(items).0|
    requires Step(items).0[JoinPosition(items) + 1].Empty?
    requires Step(items).0[JoinPosition(items) + 1].op != NOT
    requires Step(items).0[JoinPosition(items) + 1].prec == Step(items).1.Precedence()
    requires Step(items).0[JoinPosition(items) + 2].Filled?
    ensures CanReduce(Step(items).0)
    ensures SelectOperator(Step(items).0) == JoinPosition(items) + 1
    ensures Step(Step(items).0).1.rTerm == Step(items).1
  {
    var r := Step(items);
    var k := SelectOperator(items);
    var p := JoinPosition(items);
    var q := p + 1;
    var top := r.1.Precedence();
    assert top == items[k].prec > 0;
    // Left of the new node every empty operator ranked strictly below the one just joined.
    forall j | 0 <= j < q && r.0[j].Empty? ensures r.0[j].prec < top {
      assert j < p by {
        assert r.0[p] == Filled(r.1);
      }
      assert r.0[j] == r.0[..p][j] == items[j];
    }
    var k' := SelectOperator(r.0);
    assert k' != -1 by {
      assert r.0[q].Empty? && r.0[q].prec > 0;
    }
    assert r.0[k'].Empty? && r.0[k'].prec == top;
    assert r.0[q].prec == top;
  }

  predicate AllGood(items: seq<Slot>) {
    forall j :: 0 <= j < |items| ==> GoodSlot(items[j])
  }

  /** Every node of the list has good names at its leaves. */
  predicate GoodNodes(ops: seq<Expr>) {
    forall i :: 0 <= i < |ops| ==> GoodNames(ops[i])
  }

  lemma StepKeepsGood(items: seq<Slot>)
    requires CanReduce(items) && AllGood(items)
    ensures AllGood(Step(items).0) && GoodNames(Step(items).1)
  {
    StepMembers(items);
  }

  /** Joining never invents a name: when every leaf is a good name, so is every leaf afterwards. */
  lemma {:induction false} ReduceKeepsGoodNames(items: seq<Slot>)
    requires ReducesCleanly(items) && AllGood(items)
    ensures AllGood(Reduce(items).0) && GoodNodes(Reduce(items).1)
    decreases |items|
  {
    if |items| > 1 {
      var step := Step(items);
      StepKeepsGood(items);
      ReduceKeepsGoodNames(step.0);
      var rest := Reduce(step.0);
      GoodNodesCons(step.1, rest.1);
      assert Reduce(items) == (rest.0, [step.1] + rest.1);
    }
  }

  lemma GoodNodesCons(e: Expr, ops: seq<Expr>)
    requires GoodNames(e) && GoodNodes(ops)
    ensures GoodNodes([e] + ops)
  {
    assert forall i :: 1 <= i < |[e] + ops| ==> ([e] + ops)[i] == ops[i - 1];
  }

  /** Every precedence in the list, stored on a node or waiting on an empty operator, is at most b. */
  predicate Below(items: seq<Slot>, b: int) {
    forall j :: 0 <= j < |items| ==>
      (items[j].Filled? ==> MaxPrecedence(items[j].e) <= b) && (items[j].Empty? ==> items[j].prec <= b)
  }

  lemma StepKeepsBelow(items: seq<Slot>, b: int)
    requires CanReduce(items) && Below(items, b)
    ensures Below(Step(items).0, b)
  {
    StepMembers(items);
    assert MaxPrecedence(Step(items).1) <= b;
  }

  /** Joining takes each node's precedence from an operator of the list, so a common bound survives. */
  lemma {:induction false} ReduceKeepsBelow(items: seq<Slot>, b: int)
    requires ReducesCleanly(items) && Below(items, b)
    ensures Below(Reduce(items).0, b)
    decreases |items|
  {
    if |items| > 1 {
      var step := Step(items);
      StepKeepsBelow(items, b);
      ReduceKeepsBelow(step.0, b);
      assert Reduce(items).0 == Reduce(step.0).0;
    }
  }

  /** The variable-name tokens of a token sequence. */
  function Names(ts: seq<string>): seq<string>
    decreases |ts|
  {
    if ts == [] then []
    else
      var t := ts[|ts| - 1];
      Names(ts[..|ts| - 1]) + (if IsVariableToken(t) then [t] else [])
  }

  lemma {:induction false} NamesAppend(a: seq<string>, b: seq<string>)
    ensures Names(a + b) == Names(a) + Names(b)
    decreases |b|
  {
    if b == [] {
      assert a + b == a;
    } else {
      var init := b[..|b| - 1];
      assert (a + b)[..|a + b| - 1] == a + init;
      NamesAppend(a, init);
    }
  }

  /** The name tokens are the names among the non-parenthesis tokens. */
  lemma {:induction false} NameTokensAreNames(tokens: seq<string>)
    ensures NameTokens(tokens) == Names(NonParen(tokens))
    decreases |tokens|
  {
    if tokens != [] {
      var init := tokens[..|tokens| - 1];
      var t := tokens[|tokens| - 1];
      NameTokensAreNames(init);
      NamesAppend(NonParen(init), if IsParenToken(t) then [] else [t]);
      assert Names([]) == [];
      assert [t][..0] == [];
    }
  }

  lemma GoodNameIsName(name: string)
    requires GoodName(name)
    ensures Names([name]) == [name]
  {
    assert [name][..0] == [];
    assert '(' !in name && ')' !in name && '!' !in name && '*' !in name && '⊕' !in name && '+' !in name by {
      forall i | 0 <= i < |name| ensures !Tokenizer.IsDelimiter(name[i]) {
      }
    }
  }

  lemma SymbolIsNoName(op: Operator)
    ensures Names([Symbol(op)]) == []
  {
    assert [Symbol(op)][..0] == [];
  }

  /** A tree whose names are good reads back its leaves as the names of its token yield. */
  lemma {:induction false} LeavesAreNames(e: Expr)
    requires GoodNames(e)
    ensures Leaves(e) == Names(Yield(e))
  {
    match e
    case Var(name) =>
      GoodNameIsName(name);
    case Not(x, _) =>
      LeavesAreNames(x);
      NamesAppend([Symbol(NOT)], Yield(x));
      SymbolIsNoName(NOT);
    case And(l, r, _) =>
      LeavesAreNames(l);
      LeavesAreNames(r);
      JoinedNames(Yield(r), AND, Yield(l));
    case Xor(l, r, _) =>
      LeavesAreNames(l);
      LeavesAreNames(r);
      JoinedNames(Yield(r), XOR, Yield(l));
    case Or(l, r, _) =>
      LeavesAreNames(l);
      LeavesAreNames(r);
      JoinedNames(Yield(r), OR, Yield(l));
  }

  /** An operator symbol between two token runs adds no name. */
  lemma JoinedNames(a: seq<string>, op: Operator, b: seq<string>)
    ensures Names(a + [Symbol(op)] + b) == Names(a) + Names(b)
  {
    SymbolIsNoName(op);
    NamesAppend(a + [Symbol(op)], b);
    NamesAppend(a, [Symbol(op)]);
  }

  /** The variable nodes of the parser's variable map, in insertion order. */
  function VariableNodes(vars: seq<string>): (nodes: seq<Expr>)
    ensures |nodes| == |vars|
    ensures forall i :: 0 <= i < |vars| ==> nodes[i].Var? && nodes[i].name == vars[i]
  {
    seq(|vars|, i requires 0 <= i < |vars| => Var(vars[i]))
  }

  /** Once the layout and the reduction are known, the breakdown is the variables, then the joined nodes. */
  lemma ParseOfLayout(tokens: seq<string>, slots: seq<Slot>, vars: seq<string>, ops: seq<Expr>, breakdown: seq<Expr>)
    requires Lay(tokens).slots == slots && Lay(tokens).vars == vars
    requires ReducesCleanly(slots) && Reduce(slots).1 == ops
    requires breakdown == VariableNodes(vars) + ops
    ensures ReducesCleanly(Lay(tokens).slots) && ParseTokens(tokens) == breakdown
  {
  }

  /**
   * parseToExpr on a token sequence: the variables in order of first appearance, then the
   * operator nodes in the order they were joined.
   */
  function ParseTokens(tokens: seq<string>): (breakdown: seq<Expr>)
    requires ReducesCleanly(Lay(tokens).slots)
    ensures var vars := Lay(tokens).vars;
      && |vars| <= |breakdown|
      && (forall i :: 0 <= i < |vars| ==> breakdown[i] == Var(vars[i]))
      && (forall i :: |vars| <= i < |breakdown| ==> !breakdown[i].Var?)
    ensures forall i, j :: |Lay(tokens).vars| <= i < j < |breakdown| ==>
      breakdown[j].Precedence() <= breakdown[i].Precedence()
  {
    var ops := Reduce(Lay(tokens).slots).1;
    VariablesThenOperators(Lay(tokens).vars, ops);
    VariableNodes(Lay(tokens).vars) + ops
  }

  lemma VariablesThenOperators(vars: seq<string>, ops: seq<Expr>)
    requires forall i :: 0 <= i < |ops| ==> !ops[i].Var?
    requires forall i, j :: 0 <= i < j < |ops| ==> ops[j].Precedence() <= ops[i].Precedence()
    ensures var breakdown := VariableNodes(vars) + ops;
      && (forall i :: 0 <= i < |vars| ==> breakdown[i] == Var(vars[i]))
      && (forall i :: |vars| <= i < |breakdown| ==> !breakdown[i].Var?)
      && (forall i, j :: |vars| <= i < j < |breakdown| ==> breakdown[j].Precedence() <= breakdown[i].Precedence())
  {
    var breakdown := VariableNodes(vars) + ops;
    assert forall i :: |vars| <= i < |breakdown| ==> breakdown[i] == ops[i - |vars|];
  }

  /** The input is one the source parses without failing. */
  predicate WellFormed(input: string) {
    ReducesCleanly(Lay(Tokenizer.Tokenize(input)).slots)
  }

  /** parseToExpr: tokenize, then parse the tokens. */
  function ParseToExpr(input: string): (breakdown: seq<Expr>)
    requires WellFormed(input)
    ensures var vars := Lay(Tokenizer.Tokenize(input)).vars;
      && |vars| <= |breakdown|
      && (forall i :: 0 <= i < |vars| ==> breakdown[i] == Var(vars[i]))
      && (forall i :: |vars| <= i < |breakdown| ==> !breakdown[i].Var?)
  {
    ParseTokens(Tokenizer.Tokenize(input))
  }

  /**
   * The breakdown's variables: distinct, exactly the names that occur among the tokens, in
   * order of first appearance, and the only variable entries of the breakdown.
   */
  lemma BreakdownVariables(input: string)
    requires WellFormed(input)
    ensures forall i, j :: 0 <= i < j < |Variables(input)| ==> Variables(input)[i] != Variables(input)[j]
    ensures forall x :: x in Variables(input) <==> x in NameTokens(Tokenizer.Tokenize(input))
    ensures FirstAppearanceOrder(Variables(input), NameTokens(Tokenizer.Tokenize(input)))
    ensures NumOfVariablesIn(ParseToExpr(input)) == |Variables(input)|
  {
    var tokens := Tokenizer.Tokenize(input);
    LayVariableSet(tokens);
    LayVariableOrder(tokens);
    BreakdownCount(tokens);
  }

  /** The parser's variable map, in insertion order. */
  function Variables(input: string): seq<string> {
    Lay(Tokenizer.Tokenize(input)).vars
  }

  /** The breakdown holds exactly one variable node per recorded variable. */
  lemma BreakdownCount(tokens: seq<string>)
    requires ReducesCleanly(Lay(tokens).slots)
    ensures NumOfVariablesIn(ParseTokens(tokens)) == |Lay(tokens).vars|
  {
    var vars := Lay(tokens).vars;
    var breakdown := ParseTokens(tokens);
    NumOfVariablesInPrefix(breakdown[..|vars|], breakdown[|vars|..]);
    assert breakdown == breakdown[..|vars|] + breakdown[|vars|..];
  }


  /** The tokenizer's output has the shapes the parser's lemmas assume. */
  lemma TokenizedShaped(input: string)
    ensures TokenizerShaped(Tokenizer.Tokenize(input))
  {
  }

  /** A distinct list drawn from a single value holds at most one entry. */
  lemma DistinctFromOne(vars: seq<string>, names: seq<string>)
    requires |names| == 1
    requires forall i, j :: 0 <= i < j < |vars| ==> vars[i] != vars[j]
    requires forall x :: x in vars ==> x in names
    ensures |vars| <= 1
  {
    assert names == [names[0]];
    forall i | 0 <= i < |vars| ensures vars[i] == names[0] {
      assert vars[i] in vars;
    }
    if |vars| > 0 {
      assert vars[0] == vars[|vars| - 1];
    }
  }

  /**
   * With at least one name among the tokens, the last breakdown entry is the whole tree: it
   * is the one entry left in the working list, it reads back the tokens without their
   * parentheses, its leaves are the name tokens in order, and the breakdown holds one node
   * per operator token after the variables.
   */
  lemma ParsedTree(tokens: seq<string>)
    requires TokenizerShaped(tokens) && ReducesCleanly(Lay(tokens).slots) && |NameTokens(tokens)| >= 1
    ensures |ParseTokens(tokens)| == |Lay(tokens).vars| + OperatorCount(tokens) >= 1
    ensures Reduce(Lay(tokens).slots).0 == [Filled(Last(ParseTokens(tokens)))]
    ensures Yield(Last(ParseTokens(tokens))) == NonParen(tokens)
    ensures Leaves(Last(ParseTokens(tokens))) == NameTokens(tokens)
    ensures GoodNames(Last(ParseTokens(tokens)))
  {
    LaidRoot(tokens);
    var r := Reduce(Lay(tokens).slots);
    var b := ParseTokens(tokens);
    var root := r.0[0].e;
    if |r.1| == 0 {
      LaidLeaf(tokens);
    }
    assert b == VariableNodes(Lay(tokens).vars) + r.1;
    assert Last(b) == root;
    LeavesAreNames(root);
    NameTokensAreNames(tokens);
  }

  /** The joins on the laid-out tokens leave one tree, the last operator node if there is one. */
  lemma LaidRoot(tokens: seq<string>)
    requires TokenizerShaped(tokens) && ReducesCleanly(Lay(tokens).slots) && |NameTokens(tokens)| >= 1
    ensures |Reduce(Lay(tokens).slots).0| == 1 && Reduce(Lay(tokens).slots).0[0].Filled?
    ensures Reduce(Lay(tokens).slots).0 == [Filled(Reduce(Lay(tokens).slots).0[0].e)]
    ensures Yield(Reduce(Lay(tokens).slots).0[0].e) == NonParen(tokens)
    ensures GoodNames(Reduce(Lay(tokens).slots).0[0].e)
    ensures |Reduce(Lay(tokens).slots).1| == OperatorCount(tokens)
    ensures |Reduce(Lay(tokens).slots).1| > 0 ==>
      Reduce(Lay(tokens).slots).0[0].e == Last(Reduce(Lay(tokens).slots).1)
    ensures |Reduce(Lay(tokens).slots).1| == 0 ==> Lay(tokens).slots == Reduce(Lay(tokens).slots).0
  {
    LayCounts(tokens);
    LayYield(tokens);
    ReducedRoot(Lay(tokens).slots);
  }

  /** With no operator joined, the one leaf left is the one variable. */
  lemma LaidLeaf(tokens: seq<string>)
    requires |Lay(tokens).slots| == 1 && Lay(tokens).slots[0].Filled?
    ensures VariableNodes(Lay(tokens).vars) == [Lay(tokens).slots[0].e]
  {
    LayCounts(tokens);
    LayLeaves(tokens);
    LayVariableSet(tokens);
    SingleLeaf(Lay(tokens).slots, Lay(tokens).vars, NameTokens(tokens));
  }

  /** Once something is left, the one entry the joins leave is a tree reading back the whole list. */
  lemma ReducedRoot(slots: seq<Slot>)
    requires ReducesCleanly(slots) && FilledCount(slots) >= 1 && AllGood(slots)
    ensures |Reduce(slots).0| == 1 && Reduce(slots).0[0].Filled?
    ensures Reduce(slots).0 == [Filled(Reduce(slots).0[0].e)]
    ensures Yield(Reduce(slots).0[0].e) == ListYield(slots)
    ensures GoodNames(Reduce(slots).0[0].e)
    ensures |Reduce(slots).1| == EmptyCount(slots)
    ensures |Reduce(slots).1| > 0 ==> Reduce(slots).0[0].e == Last(Reduce(slots).1)
    ensures |Reduce(slots).1| == 0 ==> Reduce(slots).0 == slots
  {
    var r := Reduce(slots);
    ReduceKeepsGoodNames(slots);
    assert GoodSlot(r.0[0]);
    assert r.0[1..] == [];
    assert ListYield(r.0) == Yield(r.0[0].e) + ListYield([]);
    assert EmptyCount(r.0) == EmptyCount([]);
  }

  /** A list that is a single variable leaf comes from exactly one name, so one variable. */
  lemma SingleLeaf(slots: seq<Slot>, vars: seq<string>, names: seq<string>)
    requires |slots| == 1 && slots[0].Filled? && slots[0].e.Var? && slots[0].e.name in vars
    requires FilledCount(slots) == |names|
    requires forall i, j :: 0 <= i < j < |vars| ==> vars[i] != vars[j]
    requires forall x :: x in vars <==> x in names
    ensures VariableNodes(vars) == [slots[0].e]
  {
    assert slots[1..] == [];
    assert FilledCount(slots) == 1 + FilledCount([]);
    DistinctFromOne(vars, names);
  }

  /**
   * The tree contains exactly the variables of the breakdown, and numOfVariables counts
   * every occurrence of a name token.
   */
  lemma ParsedTreeVariables(tokens: seq<string>)
    requires TokenizerShaped(tokens) && ReducesCleanly(Lay(tokens).slots) && |NameTokens(tokens)| >= 1
    ensures |ParseTokens(tokens)| >= 1
    ensures forall x :: ContainsVariable(x, Last(ParseTokens(tokens))) <==> x in Lay(tokens).vars
    ensures NumOfVariables(Last(ParseTokens(tokens))) == |NameTokens(tokens)|
  {
    ParsedTree(tokens);
    LayVariableSet(tokens);
    var b := ParseTokens(tokens);
    TreeVariables(Last(b), Lay(tokens).vars, NameTokens(tokens));
  }

  /** A tree whose leaves are `names` contains exactly the variables that occur among them. */
  lemma TreeVariables(root: Expr, vars: seq<string>, names: seq<string>)
    requires Leaves(root) == names
    requires forall x :: x in vars <==> x in names
    ensures forall x :: ContainsVariable(x, root) <==> x in vars
    ensures NumOfVariables(root) == |names|
  {
    forall x ensures ContainsVariable(x, root) <==> x in vars {
      ContainsVariableIffLeaf(x, root);
    }
    NumOfVariablesCountsLeaves(root);
  }

  /** Without parentheses no node's precedence exceeds NOT's, so the printer adds none. */
  lemma ParenFreeTree(tokens: seq<string>)
    requires TokenizerShaped(tokens) && ReducesCleanly(Lay(tokens).slots) && |NameTokens(tokens)| >= 1
    requires forall i :: 0 <= i < |tokens| ==> !IsParenToken(tokens[i])
    ensures |ParseTokens(tokens)| >= 1 && MaxPrecedence(Last(ParseTokens(tokens))) <= HighestPrecedence
  {
    ParsedTree(tokens);
    LayBelow(tokens);
    var slots := Lay(tokens).slots;
    ReduceKeepsBelow(slots, HighestPrecedence);
    assert Reduce(slots).0[0].Filled?;
  }

  /** Without parentheses every entry of the laid-out list is a leaf or an operator at its base precedence. */
  lemma LayBelow(tokens: seq<string>)
    requires forall i :: 0 <= i < |tokens| ==> !IsParenToken(tokens[i])
    ensures Below(Lay(tokens).slots, HighestPrecedence)
  {
    LayWithoutParens(tokens);
    LayLeaves(tokens);
    var slots := Lay(tokens).slots;
    forall j | 0 <= j < |slots|
      ensures (slots[j].Filled? ==> MaxPrecedence(slots[j].e) <= HighestPrecedence)
      ensures (slots[j].Empty? ==> slots[j].prec <= HighestPrecedence)
    {
      if slots[j].Empty? {
        assert slots[j].prec == BasePrecedence(slots[j].op);
      }
    }
  }
}
