/**
 * The tokenizer: trims the input, deletes every space, and cuts what is left into
 * one-character operator/parenthesis tokens and name tokens (maximal runs of other
 * characters). Blank name runs are dropped.
 */
module Tokenizer {

  import opened Seqs

  /** The four operator symbols and the two parentheses: each always forms a token of its own. */
  predicate IsDelimiter(c: char) {
    c == '*' || c == '⊕' || c == '+' || c == '!' || c == '(' || c == ')'
  }

  /**
   * Java's Character.isWhitespace: the space, line and paragraph separators other than the
   * no-break spaces, plus the controls U+0009..U+000D and U+001C..U+001F.
   */
  predicate IsWhitespace(c: char) {
    var n := c as int;
    || 0x09 <= n <= 0x0D
    || 0x1C <= n <= 0x20
    || n == 0x1680
    || 0x2000 <= n <= 0x2006
    || 0x2008 <= n <= 0x200A
    || n == 0x2028 || n == 0x2029 || n == 0x205F || n == 0x3000
  }

  /** Java's String.isBlank: empty, or whitespace only. */
  predicate IsBlank(s: string) {
    forall i :: 0 <= i < |s| ==> IsWhitespace(s[i])
  }

  /** The characters Java's String.trim removes from both ends: code points up to U+0020. */
  predicate IsTrimmable(c: char) {
    c as int <= 0x20
  }

  predicate IsSymbolToken(t: string) {
    |t| == 1 && IsDelimiter(t[0])
  }

  predicate IsNameToken(t: string) {
    !IsBlank(t) && forall i :: 0 <= i < |t| ==> !IsDelimiter(t[i])
  }

  /** Every token the tokenizer can emit has one of these two shapes. */
  predicate IsToken(t: string) {
    IsSymbolToken(t) || IsNameToken(t)
  }

  /** A name token is always followed by a symbol token (or ends the sequence). */
  predicate NoAdjacentNames(ts: seq<string>) {
    forall i :: 0 <= i < |ts| - 1 && IsNameToken(ts[i]) ==> IsSymbolToken(ts[i + 1])
  }

  /** The delimiter characters of a string, in order. */
  function Delimiters(s: string): (r: string)
    ensures forall i :: 0 <= i < |r| ==> IsDelimiter(r[i])
    ensures |r| <= |s|
  {
    if s == [] then []
    else (if IsDelimiter(s[0]) then [s[0]] else []) + Delimiters(s[1..])
  }

  lemma {:induction false} DelimitersAppend(a: string, b: string)
    ensures Delimiters(a + b) == Delimiters(a) + Delimiters(b)
  {
    if a == [] {
      assert a + b == b;
    } else {
      assert (a + b)[1..] == a[1..] + b;
      DelimitersAppend(a[1..], b);
    }
  }

  lemma {:induction false} NoDelimiters(s: string)
    requires forall i :: 0 <= i < |s| ==> !IsDelimiter(s[i])
    ensures Delimiters(s) == []
  {
    if s != [] {
      NoDelimiters(s[1..]);
    }
  }

  function TrimStart(s: string): (r: string)
    ensures |r| <= |s| && r == s[|s| - |r|..]
    ensures forall i :: 0 <= i < |s| - |r| ==> IsTrimmable(s[i])
    ensures r != [] ==> !IsTrimmable(r[0])
  {
    if s != [] && IsTrimmable(s[0]) then
      var r := TrimStart(s[1..]);
      assert s[1..][|s| - 1 - |r|..] == s[|s| - |r|..];
      assert forall i :: 1 <= i < |s| ==> s[i] == s[1..][i - 1];
      r
    else s
  }

  function TrimEnd(s: string): (r: string)
    ensures |r| <= |s| && r == s[..|r|]
    ensures forall i :: |r| <= i < |s| ==> IsTrimmable(s[i])
    ensures r != [] ==> !IsTrimmable(r[|r| - 1])
  {
    if s != [] && IsTrimmable(s[|s| - 1]) then
      var r := TrimEnd(s[..|s| - 1]);
      assert s[..|s| - 1][..|r|] == s[..|r|];
      assert forall i :: 0 <= i < |s| - 1 ==> s[i] == s[..|s| - 1][i];
      r
    else s
  }

  /** Java's String.trim. */
  function Trim(s: string): string {
    TrimEnd(TrimStart(s))
  }

  /** Java's replaceAll(" ", ""): deletes every U+0020 and keeps everything else in order. */
  function RemoveSpaces(s: string): (r: string)
    ensures ' ' !in r
    ensures |r| <= |s|
    ensures forall i :: 0 <= i < |r| ==> r[i] in s
    ensures ' ' !in s ==> r == s
  {
    if s == [] then []
    else (if s[0] == ' ' then [] else [s[0]]) + RemoveSpaces(s[1..])
  }

  /** Emits the name being built, unless it is blank. */
  function Flush(name: string): seq<string> {
    if IsBlank(name) then [] else [name]
  }

  /**
   * One pass of the tokenizer loop over the characters `cs`, with `name` the name
   * collected so far.
   */
  function Scan(cs: string, name: string): seq<string>
    decreases |cs|
  {
    if cs == [] then Flush(name)
    else if IsDelimiter(cs[0]) then Flush(name) + [[cs[0]]] + Scan(cs[1..], "")
    else Scan(cs[1..], name + [cs[0]])
  }

  /** Every token is a symbol or a name, and without spaces in the input there are none in the tokens. */
  predicate WellShaped(ts: seq<string>, spaceless: bool) {
    && (forall i :: 0 <= i < |ts| ==> IsToken(ts[i]))
    && NoAdjacentNames(ts)
    && (spaceless ==> forall i :: 0 <= i < |ts| ==> ' ' !in ts[i])
  }

  /** The scan emits well-shaped tokens: names never touch, and a space-free input gives space-free tokens. */
  lemma {:induction false} ScanShape(cs: string, name: string)
    requires forall i :: 0 <= i < |name| ==> !IsDelimiter(name[i])
    ensures WellShaped(Scan(cs, name), ' ' !in name && ' ' !in cs)
    decreases |cs|
  {
    if cs == [] {
    } else if IsDelimiter(cs[0]) {
      ScanShape(cs[1..], "");
      assert ' ' !in cs ==> ' ' !in cs[1..] by {
        if ' ' in cs[1..] {
          var j :| 0 <= j < |cs| - 1 && cs[1..][j] == ' ';
          assert cs[j + 1] == ' ';
        }
      }
      JoinShape(name, cs[0], Scan(cs[1..], ""), ' ' !in name && ' ' !in cs);
    } else {
      var name' := name + [cs[0]];
      NameSnoc(name, cs[0]);
      ScanShape(cs[1..], name');
      assert (' ' !in name && ' ' !in cs) ==> (' ' !in name' && ' ' !in cs[1..]) by {
        if ' ' !in name && ' ' !in cs {
          assert cs == [cs[0]] + cs[1..];
          assert name' == name + [cs[0]];
        }
      }
    }
  }

  /** A name being built stays free of delimiters when a non-delimiter is added. */
  lemma NameSnoc(name: string, c: char)
    requires forall i :: 0 <= i < |name| ==> !IsDelimiter(name[i])
    requires !IsDelimiter(c)
    ensures forall i :: 0 <= i < |name + [c]| ==> !IsDelimiter((name + [c])[i])
  {
  }

  /** A flushed name, then a symbol, then well-shaped tokens are well-shaped. */
  lemma JoinShape(name: string, c: char, rest: seq<string>, spaceless: bool)
    requires forall i :: 0 <= i < |name| ==> !IsDelimiter(name[i])
    requires IsDelimiter(c) && WellShaped(rest, spaceless)
    requires spaceless ==> ' ' !in name
    ensures WellShaped(Flush(name) + [[c]] + rest, spaceless)
  {
    var f := Flush(name);
    var ts := f + [[c]] + rest;
    assert forall i :: 0 <= i < |f| ==> ts[i] == name;
    assert ts[|f|] == [c];
    assert forall i :: |f| < i < |ts| ==> ts[i] == rest[i - |f| - 1];
  }

  /** The scan keeps every delimiter of its input, in order. */
  lemma {:induction false} ScanDelimiters(cs: string, name: string)
    requires forall i :: 0 <= i < |name| ==> !IsDelimiter(name[i])
    ensures Delimiters(Concat(Scan(cs, name))) == Delimiters(cs)
    decreases |cs|
  {
    if cs == [] {
      NoDelimiters(name);
    } else if IsDelimiter(cs[0]) {
      ScanDelimiters(cs[1..], "");
      FlushThenSymbol(name, cs, Scan(cs[1..], ""));
    } else {
      NameSnoc(name, cs[0]);
      ScanDelimiters(cs[1..], name + [cs[0]]);
    }
  }

  lemma FlushThenSymbol(name: string, cs: string, rest: seq<string>)
    requires forall i :: 0 <= i < |name| ==> !IsDelimiter(name[i])
    requires cs != [] && IsDelimiter(cs[0])
    requires Delimiters(Concat(rest)) == Delimiters(cs[1..])
    ensures Delimiters(Concat(Flush(name) + [[cs[0]]] + rest)) == Delimiters(cs)
  {
    var f := Flush(name);
    var ts := f + [[cs[0]]] + rest;
    assert ts == f + ([[cs[0]]] + rest);
    ConcatAppend(f, [[cs[0]]] + rest);
    ConcatAppend([[cs[0]]], rest);
    assert Concat(ts) == Concat(f) + ([cs[0]] + Concat(rest));
    NoDelimiters(name);
    assert Delimiters(Concat(f)) == [];
    DelimitersAppend(Concat(f), [cs[0]] + Concat(rest));
    DelimitersAppend([cs[0]], Concat(rest));
    assert cs == [cs[0]] + cs[1..];
    DelimitersAppend([cs[0]], cs[1..]);
  }

  /** Turns an input string into name and symbol tokens. */
  function Tokenize(input: string): (ts: seq<string>)
    ensures forall i :: 0 <= i < |ts| ==> IsToken(ts[i]) && ' ' !in ts[i]
    ensures NoAdjacentNames(ts)
    ensures Delimiters(Concat(ts)) == Delimiters(input)
  {
    var cs := RemoveSpaces(Trim(input));
    TrimKeepsDelimiters(input);
    RemoveSpacesKeepsDelimiters(Trim(input));
    ScanShape(cs, "");
    ScanDelimiters(cs, "");
    Scan(cs, "")
  }

  lemma TrimKeepsDelimiters(s: string)
    ensures Delimiters(Trim(s)) == Delimiters(s)
  {
    TrimStartKeepsDelimiters(s);
    TrimEndKeepsDelimiters(TrimStart(s));
  }

  lemma TrimStartKeepsDelimiters(s: string)
    ensures Delimiters(TrimStart(s)) == Delimiters(s)
  {
    var a := TrimStart(s);
    var front := s[..|s| - |a|];
    assert s == front + a;
    assert forall i :: 0 <= i < |front| ==> front[i] == s[i];
    TrimmedCharsAreNotDelimiters(front);
    DelimitersAppend(front, a);
  }

  lemma TrimEndKeepsDelimiters(s: string)
    ensures Delimiters(TrimEnd(s)) == Delimiters(s)
  {
    var b := TrimEnd(s);
    var back := s[|b|..];
    assert s == b + back;
    assert forall i :: 0 <= i < |back| ==> back[i] == s[|b| + i];
    TrimmedCharsAreNotDelimiters(back);
    DelimitersAppend(b, back);
  }

  lemma TrimmedCharsAreNotDelimiters(s: string)
    requires forall i :: 0 <= i < |s| ==> IsTrimmable(s[i])
    ensures Delimiters(s) == []
  {
    NoDelimiters(s);
  }

  lemma {:induction false} RemoveSpacesKeepsDelimiters(s: string)
    ensures Delimiters(RemoveSpaces(s)) == Delimiters(s)
  {
    if s != [] {
      var head := if s[0] == ' ' then [] else [s[0]];
      RemoveSpacesKeepsDelimiters(s[1..]);
      DelimitersAppend(head, RemoveSpaces(s[1..]));
    }
  }

  /**
   * The input's only whitespace is the plain space: no tabs, line breaks, other separators,
   * or control characters that trim would strip.
   */
  predicate PlainSpacing(s: string) {
    forall i :: 0 <= i < |s| ==> s[i] == ' ' || (!IsWhitespace(s[i]) && !IsTrimmable(s[i]))
  }

  lemma {:induction false} RemoveSpacesAppend(a: string, b: string)
    ensures RemoveSpaces(a + b) == RemoveSpaces(a) + RemoveSpaces(b)
  {
    if a == [] {
      assert a + b == b;
    } else {
      assert (a + b)[1..] == a[1..] + b;
      RemoveSpacesAppend(a[1..], b);
    }
  }

  lemma {:induction false} RemoveSpacesOfSpaces(s: string)
    requires forall i :: 0 <= i < |s| ==> s[i] == ' '
    ensures RemoveSpaces(s) == []
  {
    if s != [] {
      RemoveSpacesOfSpaces(s[1..]);
    }
  }

  predicate NoWhitespace(s: string) {
    forall i :: 0 <= i < |s| ==> !IsWhitespace(s[i])
  }

  lemma FlushNonBlank(name: string)
    requires NoWhitespace(name)
    ensures Flush(name) == if name == [] then [] else [name]
  {
    if name != [] {
      assert !IsWhitespace(name[0]);
    }
  }

  lemma {:induction false} TrimStartIsSpaceRemoval(s: string)
    requires PlainSpacing(s)
    ensures RemoveSpaces(TrimStart(s)) == RemoveSpaces(s)
    ensures PlainSpacing(TrimStart(s))
  {
    if s != [] && IsTrimmable(s[0]) {
      assert s[0] == ' ';
      assert PlainSpacing(s[1..]) by {
        forall i | 0 <= i < |s| - 1 ensures s[1..][i] == s[i + 1] {}
      }
      TrimStartIsSpaceRemoval(s[1..]);
    }
  }

  lemma {:induction false} TrimEndIsSpaceRemoval(s: string)
    requires PlainSpacing(s)
    ensures RemoveSpaces(TrimEnd(s)) == RemoveSpaces(s)
  {
    if s != [] && IsTrimmable(s[|s| - 1]) {
      var init := s[..|s| - 1];
      assert s[|s| - 1] == ' ';
      assert PlainSpacing(init) by {
        forall i | 0 <= i < |init| ensures init[i] == s[i] {}
      }
      TrimEndIsSpaceRemoval(init);
      assert s == init + [' '];
      RemoveSpacesAppend(init, [' ']);
    }
  }

  /** With plain spacing, trimming only removes spaces that the space removal deletes anyway. */
  lemma TrimIsSpaceRemoval(s: string)
    requires PlainSpacing(s)
    ensures RemoveSpaces(Trim(s)) == RemoveSpaces(s)
  {
    TrimStartIsSpaceRemoval(s);
    TrimEndIsSpaceRemoval(TrimStart(s));
  }

  lemma ConcatSymbolStep(f: seq<string>, c: char, rest: seq<string>)
    ensures Concat(f + [[c]] + rest) == Concat(f) + [c] + Concat(rest)
  {
    assert f + [[c]] + rest == f + ([[c]] + rest);
    ConcatAppend(f, [[c]] + rest);
    ConcatAppend([[c]], rest);
  }

  lemma {:induction false} ScanJoins(cs: string, name: string)
    requires forall i :: 0 <= i < |name| ==> !IsDelimiter(name[i])
    requires NoWhitespace(name) && NoWhitespace(cs)
    ensures Concat(Scan(cs, name)) == name + cs
    decreases |cs|
  {
    FlushNonBlank(name);
    if cs != [] {
      NoWhitespaceSplit(cs);
      if IsDelimiter(cs[0]) {
        var rest := Scan(cs[1..], "");
        assert Scan(cs, name) == Flush(name) + [[cs[0]]] + rest;
        ScanJoins(cs[1..], "");
        ConcatSymbolStep(Flush(name), cs[0], rest);
      } else {
        var name' := name + [cs[0]];
        assert Scan(cs, name) == Scan(cs[1..], name');
        NoWhitespaceSnoc(name, cs[0]);
        ScanJoins(cs[1..], name');
        assert name' + cs[1..] == name + cs;
      }
    }
  }

  lemma NoWhitespaceSplit(cs: string)
    requires cs != [] && NoWhitespace(cs)
    ensures !IsWhitespace(cs[0]) && NoWhitespace(cs[1..]) && cs == [cs[0]] + cs[1..]
  {
    forall i | 0 <= i < |cs| - 1 ensures !IsWhitespace(cs[1..][i]) {
      assert cs[1..][i] == cs[i + 1];
    }
  }

  lemma NoWhitespaceSnoc(name: string, c: char)
    requires NoWhitespace(name) && !IsWhitespace(c)
    ensures NoWhitespace(name + [c])
  {
    var name' := name + [c];
    forall i | 0 <= i < |name'| ensures !IsWhitespace(name'[i]) {
      if i < |name| {
        assert name'[i] == name[i];
      }
    }
  }


  /**
   * With plain spacing, joining the tokens gives back the input with its spaces removed:
   * nothing but spaces is lost and every other character lands in exactly one token.
   */
  lemma TokensJoinToInput(input: string)
    requires PlainSpacing(input)
    ensures Concat(Tokenize(input)) == RemoveSpaces(input)
  {
    TrimIsSpaceRemoval(input);
    var cs := RemoveSpaces(Trim(input));
    assert NoWhitespace(cs) by {
      forall i | 0 <= i < |cs| ensures !IsWhitespace(cs[i]) {
        assert cs[i] in RemoveSpaces(input);
        assert cs[i] in input;
        assert cs[i] != ' ';
      }
    }
    ScanJoins(cs, "");
  }
}
