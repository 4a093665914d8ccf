/**
 * The tokenizer, the parser and the printer together: printing the tree the parser builds
 * gives back the input, up to spaces and parentheses, and exactly up to spaces when the
 * input has no parentheses.
 */
module RoundTrip {

  import opened Seqs
  import opened Expressions
  import Tokenizer
  import Parser
  import Printer

  /** A tokenizer-shaped name prints unchanged by the printer's stripping. */
  lemma {:induction false} GoodIsClean(e: Expr)
    requires Parser.GoodNames(e)
    ensures Printer.CleanNames(e)
  {
    match e
    case Var(name) =>
      forall i | 0 <= i < |name| ensures !Printer.IsParen(name[i]) && name[i] != ' ' {
        assert !Tokenizer.IsDelimiter(name[i]);
        assert name[i] in name;
      }
    case Not(x, _) => GoodIsClean(x);
    case And(l, r, _) => GoodIsClean(l); GoodIsClean(r);
    case Xor(l, r, _) => GoodIsClean(l); GoodIsClean(r);
    case Or(l, r, _) => GoodIsClean(l); GoodIsClean(r);
  }

  /** Stripping one token: a parenthesis disappears, every other token stays as it is. */
  lemma StripToken(t: string)
    requires Tokenizer.IsToken(t) && ' ' !in t
    ensures Printer.Strip(t) == (if Parser.IsParenToken(t) then [] else t)
  {
    if Tokenizer.IsSymbolToken(t) {
      assert t == [t[0]];
      assert Printer.Strip(t[1..]) == [];
    } else {
      forall i | 0 <= i < |t| ensures !Printer.IsParen(t[i]) && t[i] != ' ' {
        assert !Tokenizer.IsDelimiter(t[i]);
        assert t[i] in t;
      }
      Printer.StripClean(t);
    }
  }

  /** Stripping the joined tokens leaves the joined tokens without their parentheses. */
  lemma {:induction false} StripTokens(tokens: seq<string>)
    requires Parser.TokenizerShaped(tokens)
    ensures Printer.Strip(Concat(tokens)) == Concat(Parser.NonParen(tokens))
    decreases |tokens|
  {
    if tokens != [] {
      var init := tokens[..|tokens| - 1];
      var t := tokens[|tokens| - 1];
      Parser.ShapedPrefix(tokens, |tokens| - 1);
      StripTokens(init);
      assert tokens == init + [t];
      ConcatAppend(init, [t]);
      Printer.StripAppend(Concat(init), t);
      StripToken(t);
      var tail := if Parser.IsParenToken(t) then [] else [t];
      ConcatAppend(Parser.NonParen(init), tail);
      assert Concat<char>([]) == [];
    }
  }

  lemma {:induction false} StripRemoveSpaces(s: string)
    ensures Printer.Strip(Tokenizer.RemoveSpaces(s)) == Printer.Strip(s)
  {
    if s != [] {
      StripRemoveSpaces(s[1..]);
      var head := if s[0] == ' ' then [] else [s[0]];
      Printer.StripAppend(head, Tokenizer.RemoveSpaces(s[1..]));
      assert Printer.Strip(head) == (if Printer.IsParen(s[0]) || s[0] == ' ' then [] else [s[0]]) by {
        if head != [] {
          assert head[1..] == [];
        }
      }
    }
  }

  /**
   * Printing the parsed tree and deleting parentheses and spaces gives the input with its
   * parentheses and spaces deleted: the operands come back in source order although the
   * parser stores each binary node's left neighbour in `rTerm`.
   */
  lemma PrintedParseMatchesInput(input: string)
    requires Parser.WellFormed(input) && Tokenizer.PlainSpacing(input)
    requires |Parser.NameTokens(Tokenizer.Tokenize(input))| >= 1
    ensures |Parser.ParseToExpr(input)| >= 1
    ensures Printer.Strip(Printer.ToString(Last(Parser.ParseToExpr(input)))) == Printer.Strip(input)
  {
    var tokens := Tokenizer.Tokenize(input);
    Parser.TokenizedShaped(input);
    PrintedTokens(tokens);
    StripTokens(tokens);
    Tokenizer.TokensJoinToInput(input);
    StripRemoveSpaces(input);
  }

  /** The parsed tree of shaped tokens prints as the tokens without their parentheses, up to parentheses. */
  lemma PrintedTokens(tokens: seq<string>)
    requires Parser.TokenizerShaped(tokens) && Parser.ReducesCleanly(Parser.Lay(tokens).slots)
    requires |Parser.NameTokens(tokens)| >= 1
    ensures |Parser.ParseTokens(tokens)| >= 1
    ensures Printer.Strip(Printer.ToString(Last(Parser.ParseTokens(tokens)))) == Concat(Parser.NonParen(tokens))
  {
    Parser.ParsedTree(tokens);
    var b := Parser.ParseTokens(tokens);
    RootPrints(Last(b), Parser.NonParen(tokens));
  }

  lemma RootPrints(root: Expr, ts: seq<string>)
    requires Parser.GoodNames(root) && Yield(root) == ts
    ensures Printer.Strip(Printer.ToString(root)) == Concat(ts)
  {
    GoodIsClean(root);
    Printer.PrintedTokensInSourceOrder(root, HighestPrecedence);
  }

  lemma FlatRootPrints(root: Expr, ts: seq<string>)
    requires Parser.GoodNames(root) && Yield(root) == ts && MaxPrecedence(root) <= HighestPrecedence
    ensures Tokenizer.RemoveSpaces(Printer.ToString(root)) == Concat(ts)
  {
    GoodIsClean(root);
    Printer.FlatTreePrintsItsTokens(root, HighestPrecedence);
  }

  /** Joined tokens contain every character of every token. */
  lemma {:induction false} InConcat(ts: seq<string>, k: nat, c: char)
    requires k < |ts| && c in ts[k]
    ensures c in Concat(ts)
  {
    if k > 0 {
      InConcat(ts[1..], k - 1, c);
    }
  }

  /** Without parentheses in the input no token is a parenthesis. */
  lemma NoParenTokens(input: string)
    requires Tokenizer.PlainSpacing(input) && '(' !in input && ')' !in input
    ensures forall i :: 0 <= i < |Tokenizer.Tokenize(input)| ==> !Parser.IsParenToken(Tokenizer.Tokenize(input)[i])
  {
    var ts := Tokenizer.Tokenize(input);
    Tokenizer.TokensJoinToInput(input);
    forall i | 0 <= i < |ts| ensures !Parser.IsParenToken(ts[i]) {
      if '(' in ts[i] {
        InConcat(ts, i, '(');
      }
      if ')' in ts[i] {
        InConcat(ts, i, ')');
      }
    }
  }

  lemma {:induction false} NonParenOfFlat(tokens: seq<string>)
    requires forall i :: 0 <= i < |tokens| ==> !Parser.IsParenToken(tokens[i])
    ensures Parser.NonParen(tokens) == tokens
    decreases |tokens|
  {
    if tokens != [] {
      var init := tokens[..|tokens| - 1];
      assert forall i :: 0 <= i < |init| ==> init[i] == tokens[i];
      NonParenOfFlat(init);
    }
  }

  /**
   * For an input without parentheses the printed tree is the input itself, spaces aside:
   * every node's precedence is at most the initial check, so the printer adds no
   * parentheses.
   */
  lemma ParenFreeRoundTrip(input: string)
    requires Parser.WellFormed(input) && Tokenizer.PlainSpacing(input)
    requires '(' !in input && ')' !in input
    requires |Parser.NameTokens(Tokenizer.Tokenize(input))| >= 1
    ensures |Parser.ParseToExpr(input)| >= 1
    ensures Tokenizer.RemoveSpaces(Printer.ToString(Last(Parser.ParseToExpr(input)))) == Tokenizer.RemoveSpaces(input)
  {
    var tokens := Tokenizer.Tokenize(input);
    Parser.TokenizedShaped(input);
    NoParenTokens(input);
    FlatTokens(tokens);
    Tokenizer.TokensJoinToInput(input);
  }

  /** Without parenthesis tokens the parsed tree prints as the joined tokens, spaces aside. */
  lemma FlatTokens(tokens: seq<string>)
    requires Parser.TokenizerShaped(tokens) && Parser.ReducesCleanly(Parser.Lay(tokens).slots)
    requires |Parser.NameTokens(tokens)| >= 1
    requires forall i :: 0 <= i < |tokens| ==> !Parser.IsParenToken(tokens[i])
    ensures |Parser.ParseTokens(tokens)| >= 1
    ensures Tokenizer.RemoveSpaces(Printer.ToString(Last(Parser.ParseTokens(tokens)))) == Concat(tokens)
  {
    Parser.ParsedTree(tokens);
    Parser.ParenFreeTree(tokens);
    var b := Parser.ParseTokens(tokens);
    FlatRootPrints(Last(b), Parser.NonParen(tokens));
    NonParenOfFlat(tokens);
  }
}
