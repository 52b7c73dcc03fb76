/**
  Single words: which rule reads a whole word. A word in the language of any rule but
  `sym` lexes to exactly one token of that rule, because every rule tried before it
  fails on such a word and the rule itself reads it to the end. A back-tick stands
  alone, and a comment character swallows the rest of its line.
 */
module Words {
  import opened Wrappers
  import opened Numerals
  import opened Lexer

  // ---------------------------------------------------------------------------
  // Runs and whole-word steps.

  lemma {:induction false} RunAll(s: string, p: CharClass)
    requires forall i :: 0 <= i < |s| ==> p(s[i])
    ensures Run(s, p) == |s|
    decreases |s|
  {
    if |s| > 0 {
      RunAll(s[1..], p);
    }
  }

  /** `Run` is determined by where its predicate first fails. */
  lemma {:induction false} RunStops(s: string, p: CharClass, k: nat)
    requires k < |s| && (forall i :: 0 <= i < k ==> p(s[i])) && !p(s[k])
    ensures Run(s, p) == k
    decreases k
  {
    if k > 0 {
      RunStops(s[1..], p, k - 1);
    }
  }

  /** A string that one rule matches in full lexes to exactly that one token. */
  lemma LexWhole(w: string, rule: Rule)
    requires 0 < |w| && !IsIgnored(w[0]) && Match(w) == Emit(rule, |w|)
    ensures Lex(w) == Success([Token(rule, w)])
  {
    assert w[..|w|] == w;
    assert w[|w|..] == [];
    LexEmitThen(w, rule, |w|, []);
    assert [Token(rule, w)] + [] == [Token(rule, w)];
  }

  /** Digits of a base are digits in the sense of the matcher for that base. */
  lemma DigitsRun(s: string, base: nat)
    requires AllDigitsOf(s, base) && (base == 2 || base == 10 || base == 16)
    ensures base == 16 ==> Run(s, IsHexDigit) == |s|
    ensures base == 10 ==> Run(s, IsDecDigit) == |s|
    ensures base == 2 ==> Run(s, IsBinDigit) == |s|
  {
    if base == 16 {
      RunAll(s, IsHexDigit);
    } else if base == 10 {
      assert forall i :: 0 <= i < |s| ==> DigitValue(s[i]) < 10;
      RunAll(s, IsDecDigit);
    } else {
      assert forall i :: 0 <= i < |s| ==> DigitValue(s[i]) < 2;
      RunAll(s, IsBinDigit);
    }
  }

  /** The two-character prefix of a prefixed literal. */
  lemma PrefixChars(w: string, p: string)
    requires |w| >= 2 && |p| == 2 && w[..2] == p
    ensures w[0] == p[0] && w[1] == p[1]
  {
    assert w[0] == w[..2][0] && w[1] == w[..2][1];
  }

  // ---------------------------------------------------------------------------
  // The integer part shared by the int, num and num_exp rules.

  /** Neither prefixed rule fires on a word that does not start with `0x` or `0b`. */
  predicate Unprefixed(s: string) {
    !(2 <= |s| && s[0] == '0' && (s[1] == 'x' || s[1] == 'b'))
  }

  /** Neither prefixed rule matches an unprefixed word. */
  lemma NoPrefix(s: string)
    requires Unprefixed(s)
    ensures MatchHex(s) == 0 && MatchBin(s) == 0
  {
  }

  /** An integer literal followed by a non-digit: the int matcher reads exactly the literal. */
  lemma IntPrefix(s: string, i: nat)
    requires 0 < i <= |s| && IsIntLexeme(s[..i]) && (i == |s| || !IsDecDigit(s[i]))
    ensures MatchInt(s) == i
    ensures i == |s| || (s[i] != 'x' && s[i] != 'b') ==> Unprefixed(s)
  {
    var v := s[..i];
    var k := SignLen(s);
    assert s[0] == v[0];
    if k == 1 {
      assert v[1..] == s[1..i];
      DigitsRun(v[1..], 10);
      assert s[k..][..i - k] == v[1..];
    } else {
      DigitsRun(v, 10);
      assert s[k..][..i - k] == v;
    }
    var d := Run(s[k..], IsDecDigit);
    forall j | 0 <= j < i - k ensures IsDecDigit(s[k..][j]) {
      assert s[k..][j] == s[k..][..i - k][j];
    }
    if i < |s| {
      RunStops(s[k..], IsDecDigit, i - k);
    } else {
      RunAll(s[k..], IsDecDigit);
    }
    if 2 <= i && k == 0 {
      assert IsDigitOf(v[1], 10);
    } else if i == 1 && i < |s| {
      assert s[1] == s[i];
    }
  }

  // ---------------------------------------------------------------------------
  // One rule per word.

  lemma MatchHexWord(w: string)
    requires IsHexLexeme(w)
    ensures Match(w) == Emit(HexRule, |w|)
  {
    PrefixChars(w, "0x");
    DigitsRun(w[2..], 16);
  }

  lemma MatchBinWord(w: string)
    requires IsBinLexeme(w)
    ensures Match(w) == Emit(BinRule, |w|)
  {
    PrefixChars(w, "0b");
    DigitsRun(w[2..], 2);
  }

  lemma MatchIntWord(w: string)
    requires IsIntLexeme(w)
    ensures Match(w) == Emit(IntRule, |w|)
  {
    assert w[..|w|] == w;
    IntPrefix(w, |w|);
    assert w[|w|..] == [];
    assert MatchNum(w) == 0;
    assert MatchNumExp(w) == 0;
  }

  /** The exponent matcher reads a whole exponent. */
  lemma ExpWord(x: string)
    requires IsExpLexeme(x)
    ensures ExpLen(x) == |x|
  {
    DigitsRun(x[2..], 10);
  }

  /** The fraction digits and the optional exponent of a `num` word, as the matcher reads them. */
  lemma NumTail(w: string, i: nat, j: nat)
    requires NumShape(w, i, j)
    ensures Run(w[i + 1..], IsDecDigit) == j - i - 1
    ensures ExpLen(w[i + 1 + (j - i - 1)..]) == |w| - j
  {
    var t := w[i + 1..];
    assert t[..j - i - 1] == w[i + 1..j];
    forall k | 0 <= k < j - i - 1 ensures IsDecDigit(t[k]) {
      assert t[k] == w[i + 1..j][k];
      assert IsDigitOf(w[i + 1..j][k], 10);
    }
    if j < |w| {
      assert t[j - i - 1] == w[j] == w[j..][0];
      RunStops(t, IsDecDigit, j - i - 1);
      ExpWord(w[j..]);
    } else {
      RunAll(t, IsDecDigit);
      assert w[j..] == [];
    }
  }

  lemma MatchNumWord(w: string)
    requires IsNumLexeme(w)
    ensures Match(w) == Emit(NumRule, |w|)
  {
    var i: nat, j: nat :| i < j <= |w| && NumShape(w, i, j);
    NumWhole(w, i, j);
    NoPrefix(w);
  }

  /** The num matcher reads a whole `num` word, which carries no radix prefix. */
  lemma NumWhole(w: string, i: nat, j: nat)
    requires NumShape(w, i, j)
    ensures MatchNum(w) == |w| && Unprefixed(w)
  {
    IntPrefix(w, i);
    NumTail(w, i, j);
    MatchNumIs(w, i, j - i - 1, |w| - j);
  }

  lemma MatchNumExpWord(w: string)
    requires IsNumExpLexeme(w)
    ensures Match(w) == Emit(NumExpRule, |w|)
  {
    var i: nat :| i < |w| && NumExpShape(w, i);
    var x := w[i..];
    assert w[i] == x[0];
    IntPrefix(w, i);
    ExpWord(x);
    assert MatchNum(w) == 0;
  }

  /**
    An integer followed by a mark that starts no fraction, exponent or radix prefix is
    read as the integer alone, even when the symbol rule could read further.
   */
  lemma MatchIntThen(s: string, i: nat)
    requires 0 < i < |s| && IsIntLexeme(s[..i]) && !IsDecDigit(s[i])
    requires s[i] != '.' && s[i] != 'x' && s[i] != 'b' && ExpLen(s[i..]) == 0
    ensures Match(s) == Emit(IntRule, i)
  {
    IntPrefix(s, i);
    NoPrefix(s);
  }

  /** A back-tick is a symbol of its own, whatever follows it. */
  lemma MatchBacktick(s: string)
    requires 0 < |s| && s[0] == '`'
    ensures Match(s) == Emit(SymRule, 1)
  {
    RunStops(s, IsDecDigit, 0);
    assert MatchInt(s) == 0;
  }

  /**
    A word of symbol characters that no number rule can start on, and that is not a
    back-tick, is read whole by the symbol rule.
   */
  lemma MatchNameWord(w: string)
    requires 0 < |w| && Visible(w) && w[0] != '`' && !IsDecDigit(w[0])
    requires !(IsSign(w[0]) && 1 < |w| && IsDecDigit(w[1]))
    ensures Match(w) == Emit(SymRule, |w|)
  {
    if IsSign(w[0]) && 1 < |w| {
      RunStops(w[1..], IsDecDigit, 0);
    } else if IsSign(w[0]) {
      assert w[1..] == [];
    } else {
      RunStops(w, IsDecDigit, 0);
    }
    assert MatchInt(w) == 0;
    RunAll(w, IsSymChar);
  }

  /** A comment character starts a comment: no rule before it can match there. */
  lemma MatchComment(s: string)
    requires 0 < |s| && StartsComment(s[0])
    ensures Match(s) == Skip(CommentLen(s))
  {
    RunStops(s, IsDecDigit, 0);
    assert MatchInt(s) == 0;
    RunStops(s, IsSymChar, 0);
  }

  // ---------------------------------------------------------------------------
  // Whole words.

  /**
    Completeness of the rule order: a word in the language of any rule but `sym` lexes
    to exactly that token. (A `sym` word may be read by an earlier rule: `12` is an int.)
   */
  lemma LexRuleWord(t: Token)
    requires InRuleLanguage(t) && t.rule != SymRule
    ensures Lex(t.text) == Success([t])
  {
    var w := t.text;
    InRuleLanguageVisible(t);
    match t.rule {
      case HexRule => MatchHexWord(w);
      case BinRule => MatchBinWord(w);
      case NumRule => MatchNumWord(w);
      case NumExpRule => MatchNumExpWord(w);
      case IntRule => MatchIntWord(w);
    }
    LexWhole(w, t.rule);
  }

  /** A name made of symbol characters lexes to one `sym` token. */
  lemma LexName(w: string)
    requires 0 < |w| && Visible(w) && w[0] != '`' && !IsDecDigit(w[0])
    requires !(IsSign(w[0]) && 1 < |w| && IsDecDigit(w[1]))
    ensures Lex(w) == Success([Token(SymRule, w)])
  {
    MatchNameWord(w);
    LexWhole(w, SymRule);
  }

  /** A back-tick in front of a word quotes it: one `sym` token for the back-tick, then the word's tokens. */
  lemma LexQuoted(w: string, ts: seq<Token>)
    requires Lex(w) == Success(ts)
    ensures Lex(['`'] + w) == Success([Token(SymRule, "`")] + ts)
  {
    var s := ['`'] + w;
    MatchBacktick(s);
    assert s[1..] == w && s[..1] == "`";
    LexEmitThen(s, SymRule, 1, ts);
  }

  /** A quoted name: the back-tick symbol, then the name as one `sym` token. */
  lemma LexQuotedName(w: string)
    requires 0 < |w| && Visible(w) && w[0] != '`' && !IsDecDigit(w[0])
    requires !(IsSign(w[0]) && 1 < |w| && IsDecDigit(w[1]))
    ensures Lex(['`'] + w) == Success([Token(SymRule, "`")] + [Token(SymRule, w)])
  {
    LexName(w);
    LexQuoted(w, [Token(SymRule, w)]);
  }

  /** A comment with no newline after it reaches the end of the input and yields no token. */
  lemma LexComment(s: string)
    requires 0 < |s| && StartsComment(s[0]) && forall i :: 1 <= i < |s| ==> s[i] != '\n'
    ensures Lex(s) == Success([])
  {
    RunAll(s[1..], NotNewline);
    MatchComment(s);
    assert s[|s|..] == [];
  }

  /** A word, a blank and more text: the word's tokens, then the tokens of the rest. */
  lemma LexWord(w: string, more: string, ts: seq<Token>, rest: seq<Token>)
    requires Visible(w) && Lex(w) == Success(ts) && Lex(more) == Success(rest)
    ensures Lex(w + " " + more) == Success(ts + rest)
  {
    var tail := " " + more;
    assert w + " " + more == w + tail;
    LexSplitsAtBlank(w, tail);
    LexBlank(tail, more);
  }

  /** A leading blank is skipped. */
  lemma LexBlank(tail: string, more: string)
    requires tail == " " + more
    ensures Lex(tail) == Lex(more)
  {
    assert tail[1..] == more;
  }

  // ---------------------------------------------------------------------------
  // Lines of words.

  /** Words separated by single blanks, then a trailing comment. */
  function Line(words: seq<string>, comment: string): string {
    if |words| == 0 then comment else words[0] + " " + Line(words[1..], comment)
  }

  /** The token lists one after another. */
  function Flatten(tss: seq<seq<Token>>): seq<Token> {
    if |tss| == 0 then [] else tss[0] + Flatten(tss[1..])
  }

  /** Each word is made of token characters and lexes to the matching token list. */
  predicate WordsLex(words: seq<string>, tss: seq<seq<Token>>)
    decreases |words|
  {
    && |words| == |tss|
    && (|words| == 0 || (Visible(words[0]) && Lex(words[0]) == Success(tss[0]) && WordsLex(words[1..], tss[1..])))
  }

  /** One more word in front of a list of words that lex on their own. */
  lemma WordsLexCons(w: string, ts: seq<Token>, words: seq<string>, tss: seq<seq<Token>>)
    requires Visible(w) && Lex(w) == Success(ts) && WordsLex(words, tss)
    ensures WordsLex([w] + words, [ts] + tss)
  {
    assert ([w] + words)[1..] == words && ([ts] + tss)[1..] == tss;
  }

  lemma FlattenCons(ts: seq<Token>, tss: seq<seq<Token>>)
    ensures Flatten([ts] + tss) == ts + Flatten(tss)
  {
    assert ([ts] + tss)[1..] == tss;
  }

  /** Each word lexes on its own, so the line lexes to the words' tokens in order. */
  lemma {:induction false} LexLine(words: seq<string>, comment: string, tss: seq<seq<Token>>)
    requires WordsLex(words, tss) && Lex(comment) == Success([])
    ensures Lex(Line(words, comment)) == Success(Flatten(tss))
    decreases |words|
  {
    if |words| > 0 {
      LexLine(words[1..], comment, tss[1..]);
      LexWord(words[0], Line(words[1..], comment), tss[0], Flatten(tss[1..]));
    }
  }
}
