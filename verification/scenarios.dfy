/**
  Concrete runs: the example inputs of the repository's own test module, worked
  through the model. Each lemma pins down one expected result.
 */
module Scenarios {
  import opened Wrappers
  import opened Numerals
  import opened Lexer
  import opened Words
  import opened Prims
  import opened Frames
  import opened Interp

  // ---------------------------------------------------------------------------
  // Lexing one word at a time.

  /** A back-tick in front of a name: the quote symbol, then the name. */
  lemma LexQuoteSymbol()
    ensures Lex(['`'] + "symbol") == Success([Token(SymRule, "`")] + [Token(SymRule, "symbol")])
  {
    LexQuotedName("symbol");
  }

  lemma LexMinusOne()
    ensures Lex("-01") == Success([Token(IntRule, "-01")])
  {
    MinusOneValue();
    LexRuleWord(Token(IntRule, "-01"));
  }

  lemma LexDecimalFraction()
    ensures Lex("+02.30") == Success([Token(NumRule, "+02.30")])
  {
    FractionInLanguage();
    LexRuleWord(Token(NumRule, "+02.30"));
  }

  lemma LexExponent()
    ensures Lex("-4e+5") == Success([Token(NumExpRule, "-4e+5")])
  {
    ExponentInLanguage();
    LexRuleWord(Token(NumExpRule, "-4e+5"));
  }

  /** The parser test writes the exponent literal with a leading zero. */
  lemma LexPaddedExponent()
    ensures Lex("-04e+5") == Success([Token(NumExpRule, "-04e+5")])
  {
    PaddedExponentInLanguage();
    LexRuleWord(Token(NumExpRule, "-04e+5"));
  }

  lemma LexDeadBeef()
    ensures Lex("0xDeadBeef") == Success([Token(HexRule, "0xDeadBeef")])
  {
    RadixTokensInLanguage();
    LexRuleWord(Token(HexRule, "0xDeadBeef"));
  }

  lemma LexThirteen()
    ensures Lex("0b1101") == Success([Token(BinRule, "0b1101")])
  {
    RadixTokensInLanguage();
    LexRuleWord(Token(BinRule, "0b1101"));
  }

  /** A backslash comment runs to the end of the input. */
  lemma LexTrailingComment()
    ensures Lex("\\ number literals") == Success([])
  {
    LexComment("\\ number literals");
  }

  // ---------------------------------------------------------------------------
  // The number-literals program run by `M` on the booted machine.

  /** The tokens of `` `symbol -01 +02.30 -4e+5 0xDeadBeef 0b1101 \ number literals ``, the comment skipped. */
  const NumberTokens := [Token(SymRule, "`"), Token(SymRule, "symbol"), Token(IntRule, "-01"),
                         Token(NumRule, "+02.30"), Token(NumExpRule, "-4e+5"),
                         Token(HexRule, "0xDeadBeef"), Token(BinRule, "0b1101")]

  /** The words of the number-literals line, pinned one by one, and its trailing comment. */
  predicate NumberLine(words: seq<string>, comment: string) {
    && |words| == 6
    && words[0] == ['`'] + "symbol" && words[1] == "-01" && words[2] == "+02.30"
    && words[3] == "-4e+5" && words[4] == "0xDeadBeef" && words[5] == "0b1101"
    && comment == "\\ number literals"
  }

  /** The number-literals line lexes word by word: the quote and the name, then the five literals; the comment yields nothing. */
  lemma LexNumberLine(words: seq<string>, comment: string)
    requires NumberLine(words, comment)
    ensures Lex(Line(words, comment)) == Success(NumberTokens)
  {
    QuoteSymbolWord(words[0]);
    LiteralWord(words[1], Token(IntRule, "-01"));
    LiteralWord(words[2], Token(NumRule, "+02.30"));
    LiteralWord(words[3], Token(NumExpRule, "-4e+5"));
    LiteralWord(words[4], Token(HexRule, "0xDeadBeef"));
    LiteralWord(words[5], Token(BinRule, "0b1101"));
    TrailingCommentText(comment);
    NumberTokensSplit();
    LexSixWordLine(words, comment,
      [Token(SymRule, "`")] + [Token(SymRule, "symbol")], [Token(IntRule, "-01")], [Token(NumRule, "+02.30")],
      [Token(NumExpRule, "-4e+5")], [Token(HexRule, "0xDeadBeef")], [Token(BinRule, "0b1101")]);
  }

  /** The line's tokens, grouped by the word each comes from. */
  lemma NumberTokensSplit()
    ensures ([Token(SymRule, "`")] + [Token(SymRule, "symbol")]) + [Token(IntRule, "-01")] + [Token(NumRule, "+02.30")]
            + [Token(NumExpRule, "-4e+5")] + [Token(HexRule, "0xDeadBeef")] + [Token(BinRule, "0b1101")] == NumberTokens
  {
  }

  /** The quoted name, as the first word of the line. */
  lemma QuoteSymbolWord(w: string)
    requires w == ['`'] + "symbol"
    ensures Visible(w) && Lex(w) == Success([Token(SymRule, "`")] + [Token(SymRule, "symbol")])
  {
    VisibleQuoted("symbol");
    LexQuoteSymbol();
  }

  /** A literal of the line lexes to one token of its own rule. */
  lemma LiteralWord(w: string, t: Token)
    requires t in NumberTokens[2..] && w == t.text
    ensures Visible(w) && Lex(w) == Success([t])
  {
    NumberTokensInLanguage();
    InRuleLanguageVisible(t);
    LexRuleWord(t);
  }

  lemma TrailingCommentText(c: string)
    requires c == "\\ number literals"
    ensures Lex(c) == Success([])
  {
    LexTrailingComment();
  }

  lemma VisibleQuoted(n: string)
    requires Visible(n)
    ensures Visible(['`'] + n)
  {
    assert forall i :: 0 < i <= |n| ==> (['`'] + n)[i] == n[i - 1];
  }

  /** Six words that each lex on their own, then a comment, lex as one line. */
  lemma LexSixWordLine(words: seq<string>, comment: string,
                       t0: seq<Token>, t1: seq<Token>, t2: seq<Token>, t3: seq<Token>, t4: seq<Token>, t5: seq<Token>)
    requires |words| == 6 && Visible(words[0]) && Visible(words[1]) && Visible(words[2])
    requires Visible(words[3]) && Visible(words[4]) && Visible(words[5])
    requires Lex(words[0]) == Success(t0) && Lex(words[1]) == Success(t1) && Lex(words[2]) == Success(t2)
    requires Lex(words[3]) == Success(t3) && Lex(words[4]) == Success(t4) && Lex(words[5]) == Success(t5)
    requires Lex(comment) == Success([])
    ensures Lex(Line(words, comment)) == Success(t0 + t1 + t2 + t3 + t4 + t5)
  {
    SixWordsLex(words[0], words[1], words[2], words[3], words[4], words[5], t0, t1, t2, t3, t4, t5);
    assert words == [words[0], words[1], words[2], words[3], words[4], words[5]];
    LexLine(words, comment, [t0, t1, t2, t3, t4, t5]);
    FlattenSix(t0, t1, t2, t3, t4, t5);
  }

  /** Six words that each lex on their own. */
  lemma SixWordsLex(w0: string, w1: string, w2: string, w3: string, w4: string, w5: string,
                    t0: seq<Token>, t1: seq<Token>, t2: seq<Token>, t3: seq<Token>, t4: seq<Token>, t5: seq<Token>)
    requires Visible(w0) && Lex(w0) == Success(t0) && Visible(w1) && Lex(w1) == Success(t1)
    requires Visible(w2) && Lex(w2) == Success(t2) && Visible(w3) && Lex(w3) == Success(t3)
    requires Visible(w4) && Lex(w4) == Success(t4) && Visible(w5) && Lex(w5) == Success(t5)
    ensures WordsLex([w0, w1, w2, w3, w4, w5], [t0, t1, t2, t3, t4, t5])
  {
    WordsLexCons(w5, t5, [], []);
    WordsLexCons(w4, t4, [w5], [t5]);
    WordsLexCons(w3, t3, [w4, w5], [t4, t5]);
    WordsLexCons(w2, t2, [w3, w4, w5], [t3, t4, t5]);
    WordsLexCons(w1, t1, [w2, w3, w4, w5], [t2, t3, t4, t5]);
    WordsLexCons(w0, t0, [w1, w2, w3, w4, w5], [t1, t2, t3, t4, t5]);
  }

  lemma FlattenSix(t0: seq<Token>, t1: seq<Token>, t2: seq<Token>, t3: seq<Token>, t4: seq<Token>, t5: seq<Token>)
    ensures Flatten([t0, t1, t2, t3, t4, t5]) == t0 + t1 + t2 + t3 + t4 + t5
  {
    FlattenCons(t5, []);
    FlattenCons(t4, [t5]);
    FlattenCons(t3, [t4, t5]);
    FlattenCons(t2, [t3, t4, t5]);
    FlattenCons(t1, [t2, t3, t4, t5]);
    FlattenCons(t0, [t1, t2, t3, t4, t5]);
  }

  /** Appending a digit shifts the value by one place. */
  lemma ParseSnoc(s: string, c: char, base: nat)
    requires AllDigitsOf(s, base) && IsDigitOf(c, base)
    ensures AllDigitsOf(s + [c], base) && Parse(s + [c], base) == Parse(s, base) * base + DigitValue(c)
  {
    assert (s + [c])[..|s|] == s && (s + [c])[|s|] == c;
    assert forall i :: 0 <= i < |s| ==> s[i] == (s + [c])[i];
  }

  lemma DeadValue()
    ensures AllDigitsOf(['D', 'e', 'a', 'd'], 16) && Parse(['D', 'e', 'a', 'd'], 16) == 0xDEAD
  {
    ParseSnoc([], 'D', 16);
    assert [] + ['D'] == ['D'];
    ParseSnoc(['D'], 'e', 16);
    assert ['D'] + ['e'] == ['D', 'e'];
    ParseSnoc(['D', 'e'], 'a', 16);
    assert ['D', 'e'] + ['a'] == ['D', 'e', 'a'];
    ParseSnoc(['D', 'e', 'a'], 'd', 16);
    assert ['D', 'e', 'a'] + ['d'] == ['D', 'e', 'a', 'd'];
  }

  lemma DeadBeefValue()
    ensures AllDigitsOf("DeadBeef", 16) && Parse("DeadBeef", 16) == 0xDEADBEEF
  {
    DeadValue();
    ParseSnoc(['D', 'e', 'a', 'd'], 'B', 16);
    assert ['D', 'e', 'a', 'd'] + ['B'] == ['D', 'e', 'a', 'd', 'B'];
    ParseSnoc(['D', 'e', 'a', 'd', 'B'], 'e', 16);
    assert ['D', 'e', 'a', 'd', 'B'] + ['e'] == ['D', 'e', 'a', 'd', 'B', 'e'];
    ParseSnoc(['D', 'e', 'a', 'd', 'B', 'e'], 'e', 16);
    assert ['D', 'e', 'a', 'd', 'B', 'e'] + ['e'] == ['D', 'e', 'a', 'd', 'B', 'e', 'e'];
    ParseSnoc(['D', 'e', 'a', 'd', 'B', 'e', 'e'], 'f', 16);
    assert ['D', 'e', 'a', 'd', 'B', 'e', 'e'] + ['f'] == ['D', 'e', 'a', 'd', 'B', 'e', 'e', 'f'];
    assert ['D', 'e', 'a', 'd', 'B', 'e', 'e'] + ['f'] == "DeadBeef";
  }

  lemma ThirteenValue()
    ensures AllDigitsOf("1101", 2) && Parse("1101", 2) == 13
  {
    ParseSnoc([], '1', 2);
    assert [] + ['1'] == ['1'];
    ParseSnoc(['1'], '1', 2);
    assert ['1'] + ['1'] == ['1', '1'];
    ParseSnoc(['1', '1'], '0', 2);
    assert ['1', '1'] + ['0'] == ['1', '1', '0'];
    ParseSnoc(['1', '1', '0'], '1', 2);
    assert ['1', '1', '0'] + ['1'] == ['1', '1', '0', '1'];
    assert ['1', '1', '0'] + ['1'] == "1101";
  }

  lemma MinusOneValue()
    ensures IsIntLexeme("-01") && ParseSigned("-01") == -1
  {
    ParseSnoc([], '0', 10);
    assert [] + ['0'] == ['0'];
    ParseSnoc(['0'], '1', 10);
    assert ['0'] + ['1'] == ['0', '1'];
    assert "-01"[1..] == ['0'] + ['1'];
  }

  lemma FractionInLanguage()
    ensures IsNumLexeme("+02.30")
  {
    var w := "+02.30";
    assert w[..3] == "+02" && w[..3][1..] == "02" && w[4..6] == "30";
    assert NumShape(w, 3, 6);
  }

  lemma ExponentInLanguage()
    ensures IsNumExpLexeme("-4e+5")
  {
    var w := "-4e+5";
    assert w[..2] == "-4" && w[..2][1..] == "4" && w[2..] == "e+5" && w[2..][2..] == "5";
    assert NumExpShape(w, 2);
  }

  lemma PaddedExponentInLanguage()
    ensures IsNumExpLexeme("-04e+5")
  {
    var w := "-04e+5";
    assert w[..3] == "-04" && w[..3][1..] == "04" && w[3..] == "e+5" && w[3..][2..] == "5";
    assert NumExpShape(w, 3);
  }

  /** Every token of the line belongs to its rule's language. */
  lemma NumberTokensInLanguage()
    ensures forall i :: 0 <= i < |NumberTokens| ==> InRuleLanguage(NumberTokens[i])
  {
    forall i | 0 <= i < |NumberTokens| ensures InRuleLanguage(NumberTokens[i]) {
      if i == 0 {
        assert IsSymLexeme("`");
      } else if i == 1 {
        assert IsSymLexeme("symbol");
      } else if i == 2 {
        MinusOneValue();
      } else if i == 3 {
        FractionInLanguage();
      } else if i == 4 {
        ExponentInLanguage();
      } else {
        RadixTokensInLanguage();
      }
    }
  }

  lemma RadixTokensInLanguage()
    ensures InRuleLanguage(Token(HexRule, "0xDeadBeef")) && InRuleLanguage(Token(BinRule, "0b1101"))
  {
    DeadBeefValue();
    assert "0xDeadBeef"[2..] == "DeadBeef";
    ThirteenValue();
    assert "0b1101"[2..] == "1101";
  }

  /** The literal nodes the token rules build for the line, in token order. */
  const NumberInput := [NewNode(Sym, Text("`")), NewNode(Sym, Text("symbol")),
    NewNode(Int, Integer(-1)), NewNode(Num, Real("+02.30")), NewNode(Num, Real("-4e+5")),
    NewNode(Hex, Integer(0xDEADBEEF)), NewNode(Bin, Integer(13))]

  /** Each number token builds the node the test expects on the stack. */
  lemma NumberNodes()
    ensures forall i :: 0 <= i < |NumberTokens| ==> InRuleLanguage(NumberTokens[i])
    ensures LexedNodes(NumberTokens) == NumberInput
  {
    NumberTokensInLanguage();
    MinusOneValue();
    DeadBeefValue();
    assert "0xDeadBeef"[2..] == "DeadBeef";
    ThirteenValue();
    assert "0b1101"[2..] == "1101";
  }

  /** The line's nodes are fresh literals, and none after the quoted symbol is a symbol. */
  lemma NumberInputShape()
    ensures |NumberInput| == 7 && forall i :: 0 <= i < |NumberInput| ==> IsLexed(NumberInput[i])
    ensures LiteralsFirst(NumberInput[2..], 5)
  {
    LiteralsFirstMeans(NumberInput[2..], 5);
  }

  /** The booted machine with the source string left behind and the line's nodes to read. */
  lemma NumbersStart(m: Machine)
    requires |m.heap| == 7 && m.heap[..6] == Boot().heap && Frames.WellFormed(m.heap)
    requires m.vm == 0 && m.input == NumberInput
    ensures m.Valid() && m.Stack() == [] && |m.input| >= 2
    ensures m.input[0].kind == Sym && m.input[0].val == Text("`")
    ensures Text("`") in m.Vocabulary() && m.heap[m.Vocabulary()[Text("`")]].kind == Cmd(WORD)
    ensures LiteralsFirst(m.input[2..], |m.input| - 2)
  {
    NumberInputShape();
    BootQuote(m.heap);
  }

  /** The back-tick of the booted vocabulary is bound to `WORD`. */
  lemma BootQuote(h: Heap)
    requires |h| == 7 && h[..6] == Boot().heap
    ensures h[0].nest == [] && Text("`") in h[0].slot && h[h[0].slot[Text("`")]].kind == Cmd(WORD)
  {
    BootVocabulary();
    assert h[0] == Boot().heap[0] && h[5] == Boot().heap[5];
    assert Boot().heap[5] == Boot().heap[1..][4];
  }

  /** Where the quote-then-literals run leaves the six values. */
  lemma NumbersEnd(m: Machine, next: Machine)
    requires |m.heap| == 7 && m.vm < |m.heap| && next.vm < |next.heap| && m.Stack() == [] && m.input == NumberInput
    requires |next.heap| == |m.heap| + |m.input| && next.Stack() == m.Stack() + Span(|m.heap| + 1, |m.input| - 1)
    requires forall i :: 1 <= i < |m.input| ==> next.heap[|m.heap| + i] == m.input[i]
    ensures |next.heap| == 14 && next.Stack() == [8, 9, 10, 11, 12, 13]
    ensures next.heap[8] == NewNode(Sym, Text("symbol"))
    ensures next.heap[9] == NewNode(Int, Integer(-1))
    ensures next.heap[10] == NewNode(Num, Real("+02.30"))
    ensures next.heap[11] == NewNode(Num, Real("-4e+5"))
    ensures next.heap[12] == NewNode(Hex, Integer(0xDEADBEEF))
    ensures next.heap[13] == NewNode(Bin, Integer(13))
  {
    var s := next.Stack();
    assert s[0] == 8 && s[1] == 9 && s[2] == 10 && s[3] == 11 && s[4] == 12 && s[5] == 13;
    assert next.heap[7 + 1] == m.input[1] && next.heap[7 + 2] == m.input[2] && next.heap[7 + 3] == m.input[3];
    assert next.heap[7 + 4] == m.input[4] && next.heap[7 + 5] == m.input[5] && next.heap[7 + 6] == m.input[6];
  }

  /**
    `M` on the number-literals line: the quoted symbol and the five numbers end on the
    stack in source order, as their literal nodes, and the run ends normally.
   */
  lemma NumbersProgram(words: seq<string>, comment: string, text: string)
    requires NumberLine(words, comment) && text == Line(words, comment)
    ensures Evaluate(Boot(), text).Ok?
    ensures var next := Evaluate(Boot(), text).m;
      && next.vm == 0 && next.heap[0].kind == VM && next.heap[0].val == Text("metaL")
      && |next.heap| == 14 && next.Stack() == [8, 9, 10, 11, 12, 13]
      && next.heap[8] == NewNode(Sym, Text("symbol"))
      && next.heap[9] == NewNode(Int, Integer(-1))
      && next.heap[10] == NewNode(Num, Real("+02.30"))
      && next.heap[11] == NewNode(Num, Real("-4e+5"))
      && next.heap[12] == NewNode(Hex, Integer(0xDEADBEEF))
      && next.heap[13] == NewNode(Bin, Integer(13))
  {
    LexNumberLine(words, comment);
    NumberTokensProgram(text);
  }

  /** The same run for any input that lexes to the line's tokens. */
  lemma NumberTokensProgram(text: string)
    requires Lex(text) == Success(NumberTokens)
    ensures Evaluate(Boot(), text).Ok?
    ensures var next := Evaluate(Boot(), text).m;
      && next.vm == 0 && next.heap[0].kind == VM && next.heap[0].val == Text("metaL")
      && |next.heap| == 14 && next.Stack() == [8, 9, 10, 11, 12, 13]
      && next.heap[8] == NewNode(Sym, Text("symbol"))
      && next.heap[9] == NewNode(Int, Integer(-1))
      && next.heap[10] == NewNode(Num, Real("+02.30"))
      && next.heap[11] == NewNode(Num, Real("-4e+5"))
      && next.heap[12] == NewNode(Hex, Integer(0xDEADBEEF))
      && next.heap[13] == NewNode(Bin, Integer(13))
  {
    BootVocabulary();
    NumberNodes();
    EvaluateRuns(Boot(), text, NumberTokens);
    var m := Machine(Boot().heap + [NewNode(Str, Text(text))], 0, NumberInput);
    assert m.heap[..6] == Boot().heap;
    NumbersStart(m);
    QuoteThenLiterals(m);
    NumbersEnd(m, Loop(m).m);
  }

  /**
    First match, not longest match: `1e5` is no numexp (that exponent needs a sign), so the
    integer rule takes `1` although the symbol rule, tried later, could read the whole word.
   */
  lemma LexOneE5()
    ensures InLanguage(SymRule, "1e5")
    ensures Lex("1e5") == Success([Token(IntRule, "1"), Token(SymRule, "e5")])
  {
    var s := "1e5";
    assert s[1..] == "e5" && s[..1] == "1";
    MatchIntThen(s, 1);
    LexName("e5");
    LexEmitThen(s, IntRule, 1, [Token(SymRule, "e5")]);
    assert [Token(IntRule, s[..1])] + [Token(SymRule, "e5")] == [Token(IntRule, "1"), Token(SymRule, "e5")];
  }

  // ---------------------------------------------------------------------------
  // A word bound to a frame without `eval`.

  lemma LexVm()
    ensures Lex("vm") == Success([Token(SymRule, "vm")])
  {
    LexName("vm");
  }

  /**
    `M('vm')`: the word resolves to the machine itself, whose class defines no `eval`, so
    `EVAL` raises `AttributeError` after `FIND` has put the machine on its own stack.
   */
  lemma EvalVmFails()
    ensures Evaluate(Boot(), "vm").Failed?
    ensures Evaluate(Boot(), "vm").fault == NoEval(VM)
    ensures Evaluate(Boot(), "vm").m.Stack() == []
  {
    LexVm();
    EvalVmText("vm");
  }

  /** Any source that lexes to the single word `vm`. */
  lemma EvalVmText(text: string)
    requires Lex(text) == Success([Token(SymRule, "vm")])
    ensures Evaluate(Boot(), text).Failed?
    ensures Evaluate(Boot(), text).fault == NoEval(VM)
    ensures Evaluate(Boot(), text).m.Stack() == []
  {
    BootVocabulary();
    EvaluateNoEval(Boot(), text, "vm");
  }
}
