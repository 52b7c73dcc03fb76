/**
  The lexer: an ordered list of rules tried at each position, first match wins (an
  alternation, not longest match). Spaces, tabs, carriage returns and newlines are
  skipped, and `#` or `\` starts a comment that runs to the end of the line. The token
  rules, in order: hex, bin, num (with a dot), num_exp (signed exponent), int, sym.
 */
module Lexer {
  import opened Wrappers
  import opened Numerals

  datatype Rule = HexRule | BinRule | NumRule | NumExpRule | IntRule | SymRule

  /** A token: the rule that matched and the text it matched. */
  datatype Token = Token(rule: Rule, text: string)

  /** `t_error`: no rule matches; carries the unread rest of the input. */
  datatype LexError = LexError(rest: string)

  /** What tokenizing an input yields: the tokens, or the failure at the first unmatched position. */
  type Lexed = Result<seq<Token>, LexError>

  /** A class of characters, given by its membership test. */
  type CharClass = char -> bool

  /** `t_ignore`: characters skipped between tokens. */
  predicate IsIgnored(c: char) {
    c == ' ' || c == '\t' || c == '\r' || c == '\n'
  }

  /** The two characters that open a line comment. */
  predicate StartsComment(c: char) {
    c == '#' || c == '\\'
  }

  /** A character the symbol rule accepts: anything not skipped and not opening a comment. */
  predicate IsSymChar(c: char) {
    !IsIgnored(c) && !StartsComment(c)
  }

  predicate NotNewline(c: char) {
    c != '\n'
  }

  /** Length of the longest prefix of `s` whose characters all satisfy `p` (a greedy `p*`). */
  function Run(s: string, p: CharClass): (n: nat)
    ensures n <= |s|
    ensures forall i :: 0 <= i < n ==> p(s[i])
    ensures n < |s| ==> !p(s[n])
  {
    if |s| == 0 || !p(s[0]) then 0 else 1 + Run(s[1..], p)
  }

  // ---------------------------------------------------------------------------
  // The languages of the rules, stated declaratively.

  /** `0x[0-9a-fA-F]+` */
  predicate IsHexLexeme(w: string) {
    |w| > 2 && w[..2] == "0x" && AllDigitsOf(w[2..], 16)
  }

  /** `0b[01]+` */
  predicate IsBinLexeme(w: string) {
    |w| > 2 && w[..2] == "0b" && AllDigitsOf(w[2..], 2)
  }

  /** `[eE][+\-][0-9]+` */
  predicate IsExpLexeme(w: string) {
    |w| > 2 && (w[0] == 'e' || w[0] == 'E') && IsSign(w[1]) && AllDigitsOf(w[2..], 10)
  }

  /** `w[..i]` is a signed integer, `w[i]` the dot, `w[i+1..j]` the fraction, `w[j..]` an optional exponent. */
  predicate NumShape(w: string, i: nat, j: nat) {
    && i < j <= |w|
    && IsIntLexeme(w[..i]) && w[i] == '.'
    && AllDigitsOf(w[i + 1..j], 10)
    && (j == |w| || IsExpLexeme(w[j..]))
  }

  /** `[+\-]?[0-9]+\.[0-9]*([eE][+\-][0-9]+)?` */
  predicate IsNumLexeme(w: string) {
    exists i: nat, j: nat | i < j <= |w| :: NumShape(w, i, j)
  }

  /** `w[..i]` is a signed integer and `w[i..]` an exponent. */
  predicate NumExpShape(w: string, i: nat) {
    i < |w| && IsIntLexeme(w[..i]) && IsExpLexeme(w[i..])
  }

  /** `[+\-]?[0-9]+[eE][+\-][0-9]+` */
  predicate IsNumExpLexeme(w: string) {
    exists i: nat | i < |w| :: NumExpShape(w, i)
  }

  /** `` (`)|[^ \t\r\n\#\\]+ `` */
  predicate IsSymLexeme(w: string) {
    w == "`" || (|w| > 0 && forall i :: 0 <= i < |w| ==> IsSymChar(w[i]))
  }

  /** A token whose text belongs to the language of its rule. */
  predicate InRuleLanguage(t: Token) {
    InLanguage(t.rule, t.text)
  }

  /** `w` belongs to the language of `rule`. */
  predicate InLanguage(rule: Rule, w: string) {
    match rule
    case HexRule => IsHexLexeme(w)
    case BinRule => IsBinLexeme(w)
    case NumRule => IsNumLexeme(w)
    case NumExpRule => IsNumExpLexeme(w)
    case IntRule => IsIntLexeme(w)
    case SymRule => IsSymLexeme(w)
  }

  /** No prefix of `s` longer than `n` belongs to the language of `rule`; with `n == 0`, the rule cannot fire at `s`. */
  predicate NoPrefixBeyond(s: string, rule: Rule, n: nat) {
    forall k :: n < k <= |s| ==> !InLanguage(rule, s[..k])
  }

  /** The position of a token rule in the file, which is the order the rules are tried in. */
  function Rank(rule: Rule): nat {
    match rule
    case HexRule => 0
    case BinRule => 1
    case NumRule => 2
    case NumExpRule => 3
    case IntRule => 4
    case SymRule => 5
  }

  // ---------------------------------------------------------------------------
  // The rules as greedy matchers: each returns the length it matches at the start of `s`, 0 for none.

  function SignLen(s: string): (n: nat)
    ensures n <= 1 && n <= |s|
    ensures n == 1 <==> 0 < |s| && IsSign(s[0])
  {
    if 0 < |s| && IsSign(s[0]) then 1 else 0
  }

  function MatchHex(s: string): (n: nat)
    ensures n <= |s|
    ensures n > 0 ==> IsHexLexeme(s[..n])
    ensures n > 0 <==> 2 < |s| && s[0] == '0' && s[1] == 'x' && IsHexDigit(s[2])
    ensures n > 0 ==> n == |s| || !IsHexDigit(s[n])
    ensures NoPrefixBeyond(s, HexRule, n)
  {
    if 2 <= |s| && s[0] == '0' && s[1] == 'x' then
      var d := Run(s[2..], IsHexDigit);
      assert forall k | 2 + d < k <= |s| :: s[..k][2..][d] == s[2..][d];
      if d > 0 then
        assert s[..2 + d][2..] == s[2..][..d];
        2 + d
      else 0
    else
      assert forall k | 0 < k <= |s| :: s[..k][0] == s[0] && (1 < k ==> s[..k][1] == s[1]);
      0
  }

  function MatchBin(s: string): (n: nat)
    ensures n <= |s|
    ensures n > 0 ==> IsBinLexeme(s[..n])
    ensures n > 0 <==> 2 < |s| && s[0] == '0' && s[1] == 'b' && IsBinDigit(s[2])
    ensures n > 0 ==> n == |s| || !IsBinDigit(s[n])
    ensures NoPrefixBeyond(s, BinRule, n)
  {
    if 2 <= |s| && s[0] == '0' && s[1] == 'b' then
      var d := Run(s[2..], IsBinDigit);
      assert forall k | 2 + d < k <= |s| :: s[..k][2..][d] == s[2..][d];
      if d > 0 then
        assert s[..2 + d][2..] == s[2..][..d];
        2 + d
      else 0
    else
      assert forall k | 0 < k <= |s| :: s[..k][0] == s[0] && (1 < k ==> s[..k][1] == s[1]);
      0
  }

  function MatchInt(s: string): (n: nat)
    ensures n <= |s|
    ensures n > 0 ==> IsIntLexeme(s[..n])
    ensures n > 0 ==> n == |s| || !IsDecDigit(s[n])
    ensures 0 < |s| && IsDecDigit(s[0]) ==> n > 0
    ensures NoPrefixBeyond(s, IntRule, n)
  {
    var k := SignLen(s);
    var d := Run(s[k..], IsDecDigit);
    assert forall j | k + d < j <= |s| :: s[..j][k..][d] == s[k..][d] && s[..j][0] == s[0];
    if d > 0 then
      assert k == 1 ==> s[..k + d][1..] == s[k..][..d];
      assert k == 0 ==> s[..k + d] == s[k..][..d];
      k + d
    else 0
  }

  /** The optional exponent `[eE][+\-][0-9]+` of the num rules, read greedily. */
  function ExpLen(s: string): (n: nat)
    ensures n <= |s|
    ensures n > 0 ==> IsExpLexeme(s[..n])
    ensures n > 0 <==> 2 < |s| && (s[0] == 'e' || s[0] == 'E') && IsSign(s[1]) && IsDecDigit(s[2])
    ensures forall k :: n < k <= |s| ==> !IsExpLexeme(s[..k])
  {
    if 2 <= |s| && (s[0] == 'e' || s[0] == 'E') && IsSign(s[1]) then
      var d := Run(s[2..], IsDecDigit);
      assert forall k | 2 + d < k <= |s| :: s[..k][2..][d] == s[2..][d];
      if d > 0 then
        assert s[..2 + d][2..] == s[2..][..d];
        2 + d
      else 0
    else
      assert forall k | 0 < k <= |s| :: s[..k][0] == s[0] && (1 < k ==> s[..k][1] == s[1]);
      0
  }

  function MatchNum(s: string): (n: nat)
    ensures n <= |s|
    ensures n > 0 ==> IsNumLexeme(s[..n])
    ensures n > 0 <==> 0 < MatchInt(s) < |s| && s[MatchInt(s)] == '.'
    ensures NoPrefixBeyond(s, NumRule, n)
  {
    NumPrefixesFit(s);
    var m := MatchInt(s);
    if 0 < m < |s| && s[m] == '.' then
      var f := Run(s[m + 1..], IsDecDigit);
      var e := ExpLen(s[m + 1 + f..]);
      NumShapeOfMatch(s, m, f, e);
      m + 1 + f + e
    else 0
  }

  lemma NumShapeOfMatch(s: string, m: nat, f: nat, e: nat)
    requires 0 < m < |s| && s[m] == '.' && IsIntLexeme(s[..m])
    requires f == Run(s[m + 1..], IsDecDigit) && e == ExpLen(s[m + 1 + f..])
    ensures m + 1 + f + e <= |s|
    ensures NumShape(s[..m + 1 + f + e], m, m + 1 + f)
  {
    var w := s[..m + 1 + f + e];
    IntOfMatch(s, w, m);
    FractionOfMatch(s, w, m, f);
    ExponentOfMatch(s, w, m + 1 + f, e);
  }

  lemma IntOfMatch(s: string, w: string, m: nat)
    requires m < |w| <= |s| && w == s[..|w|] && s[m] == '.' && IsIntLexeme(s[..m])
    ensures IsIntLexeme(w[..m]) && w[m] == '.'
  {
    assert w[..m] == s[..m];
  }

  lemma FractionOfMatch(s: string, w: string, m: nat, f: nat)
    requires m < |s| && f == Run(s[m + 1..], IsDecDigit) && m + 1 + f <= |w| <= |s| && w == s[..|w|]
    ensures AllDigitsOf(w[m + 1..m + 1 + f], 10)
  {
    DecimalRun(s[m + 1..], f);
    assert w[m + 1..m + 1 + f] == s[m + 1..][..f];
  }

  lemma ExponentOfMatch(s: string, w: string, j: nat, e: nat)
    requires j <= |s| && e == ExpLen(s[j..]) && |w| == j + e && w == s[..|w|]
    ensures e > 0 ==> IsExpLexeme(w[j..])
  {
    assert w[j..] == s[j..][..e];
  }

  /** An integer lexeme that the next character cannot extend is exactly what `MatchInt` reads. */
  lemma IntMatchExact(s: string, i: nat)
    requires 0 < i <= |s| && IsIntLexeme(s[..i]) && (i == |s| || !IsDecDigit(s[i]))
    ensures MatchInt(s) == i
  {
    var n := MatchInt(s);
    assert InLanguage(IntRule, s[..i]);
    IntPrefixDigit(s, i, n);
  }

  /** Inside a longer integer lexeme, the character after a shorter one is a digit. */
  lemma IntPrefixDigit(s: string, i: nat, n: nat)
    requires 0 < i <= n <= |s| && IsIntLexeme(s[..i]) && IsIntLexeme(s[..n])
    ensures i == n || IsDecDigit(s[i])
  {
    if i < n {
      var w := s[..n];
      assert w[i] == s[i] && w[0] == s[..i][0];
      if IsSign(w[0]) {
        assert w[1..][i - 1] == w[i];
      }
    }
  }

  /** `s[..k]` is no longer than what the num rule reads: the integer part, the dot, the greedy fraction, the greedy exponent. */
  predicate NumFits(s: string, k: nat) {
    var m := MatchInt(s);
    && 0 < m < |s| && s[m] == '.'
    && (var f := Run(s[m + 1..], IsDecDigit); k <= m + 1 + f + ExpLen(s[m + 1 + f..]))
  }

  /** Every prefix of `s` in the num language fits inside the greedy reading. */
  lemma NumPrefixesFit(s: string)
    ensures forall k :: 0 < k <= |s| && IsNumLexeme(s[..k]) ==> NumFits(s, k)
  {
    forall k | 0 < k <= |s| && IsNumLexeme(s[..k])
      ensures NumFits(s, k)
    {
      var i: nat, j: nat :| i < j <= k && NumShape(s[..k], i, j);
      NumPrefixFits(s, s[..k], i, j);
    }
  }

  lemma NumPrefixFits(s: string, w: string, i: nat, j: nat)
    requires |w| <= |s| && w == s[..|w|] && NumShape(w, i, j)
    ensures NumFits(s, |w|)
  {
    IntBeforeMark(s, w, i);
    FractionFits(s, w, i, j);
    var f := Run(s[i + 1..], IsDecDigit);
    if j < |w| {
      ExponentAfterFraction(s, w, i, j);
      ExponentAt(s, w, j);
    }
  }

  /** An exponent that ends a prefix of `s` at position `j` is no longer than the greedy one there. */
  lemma ExponentAt(s: string, w: string, j: nat)
    requires |w| <= |s| && w == s[..|w|] && j < |w| && IsExpLexeme(w[j..])
    ensures |w| <= j + ExpLen(s[j..])
  {
    assert w[j..] == s[j..][..|w| - j];
    ExponentFits(s[j..], w[j..]);
  }

  /** An exponent at the start of `t` is no longer than the greedy one. */
  lemma ExponentFits(t: string, x: string)
    requires |x| <= |t| && x == t[..|x|] && IsExpLexeme(x)
    ensures |x| <= ExpLen(t)
  {
  }

  /** The integer part before a non-digit mark in a prefix of `s` is what `MatchInt` reads. */
  lemma IntBeforeMark(s: string, w: string, i: nat)
    requires |w| <= |s| && w == s[..|w|] && i < |w| && IsIntLexeme(w[..i]) && !IsDecDigit(w[i])
    ensures MatchInt(s) == i && s[i] == w[i]
  {
    assert w[..i] == s[..i] && w[i] == s[i];
    IntMatchExact(s, i);
  }

  /** A digit string after the dot is no longer than the greedy fraction. */
  lemma FractionFits(s: string, w: string, i: nat, j: nat)
    requires |w| <= |s| && w == s[..|w|] && i < j <= |w| && AllDigitsOf(w[i + 1..j], 10)
    ensures j <= i + 1 + Run(s[i + 1..], IsDecDigit)
  {
    var t, u := s[i + 1..], w[i + 1..j];
    assert forall q | 0 <= q < |u| :: t[q] == u[q];
    RunCovers(t, IsDecDigit, |u|);
  }

  /** A prefix whose characters all satisfy `p` is covered by the greedy run. */
  lemma RunCovers(t: string, p: CharClass, k: nat)
    requires k <= |t| && forall q :: 0 <= q < k ==> p(t[q])
    ensures k <= Run(t, p)
  {
  }

  /** An exponent after the fraction starts where the greedy fraction stops. */
  lemma ExponentAfterFraction(s: string, w: string, i: nat, j: nat)
    requires |w| <= |s| && w == s[..|w|] && i < j < |w| && IsExpLexeme(w[j..])
    requires j <= i + 1 + Run(s[i + 1..], IsDecDigit)
    ensures j == i + 1 + Run(s[i + 1..], IsDecDigit)
  {
    if j < i + 1 + Run(s[i + 1..], IsDecDigit) {
      assert w[j..][0] == w[j] == s[i + 1..][j - i - 1];
    }
  }

  /** `s[..k]` is no longer than what the numexp rule reads: the integer part and the greedy exponent. */
  predicate NumExpFits(s: string, k: nat) {
    var m := MatchInt(s);
    0 < m && 0 < ExpLen(s[m..]) && k <= m + ExpLen(s[m..])
  }

  /** Every prefix of `s` in the numexp language fits inside the greedy reading. */
  lemma NumExpPrefixesFit(s: string)
    ensures forall k :: 0 < k <= |s| && IsNumExpLexeme(s[..k]) ==> NumExpFits(s, k)
  {
    forall k | 0 < k <= |s| && IsNumExpLexeme(s[..k])
      ensures NumExpFits(s, k)
    {
      var i: nat :| i < k && NumExpShape(s[..k], i);
      NumExpPrefixFits(s, s[..k], i);
    }
  }

  lemma NumExpPrefixFits(s: string, w: string, i: nat)
    requires |w| <= |s| && w == s[..|w|] && NumExpShape(w, i)
    ensures NumExpFits(s, |w|)
  {
    assert w[i] == w[i..][0];
    IntBeforeMark(s, w, i);
    ExponentAt(s, w, i);
  }

  /** The greedy run of decimal digits is a string of base-10 digits. */
  lemma DecimalRun(s: string, n: nat)
    requires n == Run(s, IsDecDigit)
    ensures n <= |s| && AllDigitsOf(s[..n], 10)
  {
    assert forall i :: 0 <= i < n ==> s[..n][i] == s[i] && IsDecDigit(s[i]);
  }

  function MatchNumExp(s: string): (n: nat)
    ensures n <= |s|
    ensures n > 0 ==> IsNumExpLexeme(s[..n])
    ensures n > 0 <==> 0 < MatchInt(s) && 0 < ExpLen(s[MatchInt(s)..])
    ensures NoPrefixBeyond(s, NumExpRule, n)
  {
    NumExpPrefixesFit(s);
    var m := MatchInt(s);
    if m > 0 then
      var e := ExpLen(s[m..]);
      if e > 0 then
        NumExpShapeOfMatch(s, m, e);
        m + e
      else 0
    else 0
  }

  lemma NumExpShapeOfMatch(s: string, m: nat, e: nat)
    requires 0 < m == MatchInt(s) && 0 < e == ExpLen(s[m..])
    ensures m + e <= |s| && IsNumExpLexeme(s[..m + e])
  {
    var w := s[..m + e];
    assert w[..m] == s[..m];
    assert w[m..] == s[m..][..e];
    assert NumExpShape(w, m);
  }

  function MatchSym(s: string): (n: nat)
    ensures n <= |s|
    ensures n > 0 ==> IsSymLexeme(s[..n])
    ensures 0 < |s| && IsSymChar(s[0]) ==> n > 0
    ensures 0 < |s| && s[0] == '`' ==> n == 1
    ensures 0 < |s| && s[0] != '`' ==> (n == |s| || !IsSymChar(s[n])) && NoPrefixBeyond(s, SymRule, n)
  {
    if 0 < |s| && s[0] == '`' then 1
    else
      var d := Run(s, IsSymChar);
      assert forall k | d < k <= |s| :: s[..k][d] == s[d] && s[..k][0] == s[0];
      d
  }

  /** `t_ignore_comment`: `[\#\\].*`, the opening character and the rest of the line. */
  function CommentLen(s: string): (n: nat)
    ensures n <= |s|
    ensures n > 0 <==> 0 < |s| && StartsComment(s[0])
  {
    if 0 < |s| && StartsComment(s[0]) then 1 + Run(s[1..], NotNewline) else 0
  }

  /** The first `n` characters of `s` form a word of the language of `rule`. */
  predicate EmitsPrefix(s: string, rule: Rule, n: nat) {
    n <= |s| && InLanguage(rule, s[..n])
  }

  /** What the combined rule list does at one position. */
  datatype Step = Emit(rule: Rule, len: nat) | Skip(len: nat) | NoMatch

  /** The rules in the order they are tried: the function rules in file order, then the comment rule. */
  function Match(s: string): (m: Step)
    ensures m.Emit? ==> 0 < m.len && EmitsPrefix(s, m.rule, m.len)
    ensures m.Skip? ==> 0 < m.len <= |s| && StartsComment(s[0]) && m.len == CommentLen(s)
  {
    if MatchHex(s) > 0 then Emit(HexRule, MatchHex(s))
    else if MatchBin(s) > 0 then Emit(BinRule, MatchBin(s))
    else if MatchNum(s) > 0 then Emit(NumRule, MatchNum(s))
    else if MatchNumExp(s) > 0 then Emit(NumExpRule, MatchNumExp(s))
    else if MatchInt(s) > 0 then Emit(IntRule, MatchInt(s))
    else if MatchSym(s) > 0 then Emit(SymRule, MatchSym(s))
    else if CommentLen(s) > 0 then Skip(CommentLen(s))
    else NoMatch
  }

  /**
    First match, not longest match: the rule that emits is one that no earlier rule could
    have beaten, since every earlier rule matches no prefix at all; the emitting rule reads
    as much as its language allows, except that a back-tick is a symbol on its own. A comment
    or a failure happens only where no token rule matches any prefix.
   */
  lemma MatchFirstWins(s: string)
    ensures Match(s).Emit? ==> forall r :: Rank(r) < Rank(Match(s).rule) ==> NoPrefixBeyond(s, r, 0)
    ensures Match(s).Emit? && (Match(s).rule != SymRule || s[0] != '`') ==> NoPrefixBeyond(s, Match(s).rule, Match(s).len)
    ensures !Match(s).Emit? ==> forall r :: NoPrefixBeyond(s, r, 0)
    ensures Match(s).NoMatch? ==> |s| == 0 || !StartsComment(s[0])
  {
  }

  // ---------------------------------------------------------------------------
  // Tokenizing a whole input.

  /** The token stream of `s`, or the `t_error` failure at the first position no rule matches. */
  function Lex(s: string): (r: Lexed)
    ensures r.Success? ==> forall i :: 0 <= i < |r.value| ==> InRuleLanguage(r.value[i])
    decreases |s|
  {
    if |s| == 0 then Success([])
    else if IsIgnored(s[0]) then Lex(s[1..])
    else match Match(s)
      case NoMatch => Failure(LexError(s))
      case Skip(n) => Lex(s[n..])
      case Emit(rule, n) =>
        match Lex(s[n..])
        case Failure(e) => Failure(e)
        case Success(rest) => Success([Token(rule, s[..n])] + rest)
  }

  /** The characters a token text may contain: none is skipped and none opens a comment. */
  predicate Visible(w: string) {
    forall i :: 0 <= i < |w| ==> IsSymChar(w[i])
  }

  lemma DigitsVisible(w: string, base: nat)
    requires AllDigitsOf(w, base)
    ensures Visible(w)
  {
  }

  lemma IntLexemeVisible(w: string)
    requires IsIntLexeme(w)
    ensures Visible(w)
  {
    if IsSign(w[0]) {
      forall i | 1 <= i < |w| ensures IsSymChar(w[i]) {
        assert w[i] == w[1..][i - 1];
      }
    }
  }

  lemma ExpLexemeVisible(w: string)
    requires IsExpLexeme(w)
    ensures Visible(w)
  {
    forall i | 2 <= i < |w| ensures IsSymChar(w[i]) {
      assert w[i] == w[2..][i - 2];
    }
  }

  lemma PrefixedDigitsVisible(w: string, base: nat)
    requires |w| > 2 && IsSymChar(w[0]) && IsSymChar(w[1]) && AllDigitsOf(w[2..], base)
    ensures Visible(w)
  {
    forall i | 2 <= i < |w| ensures IsSymChar(w[i]) {
      assert w[i] == w[2..][i - 2];
    }
  }

  /** Every token text is made of characters the symbol rule could also read. */
  lemma InRuleLanguageVisible(t: Token)
    requires InRuleLanguage(t)
    ensures Visible(t.text)
  {
    var w := t.text;
    match t.rule
    case HexRule =>
      assert w[0] == w[..2][0] && w[1] == w[..2][1];
      PrefixedDigitsVisible(w, 16);
    case BinRule =>
      assert w[0] == w[..2][0] && w[1] == w[..2][1];
      PrefixedDigitsVisible(w, 2);
    case IntRule =>
      IntLexemeVisible(w);
    case SymRule =>
    case NumExpRule =>
      var i: nat :| i < |w| && NumExpShape(w, i);
      NumExpLexemeVisible(w, i);
    case NumRule =>
      var i: nat, j: nat :| i < j <= |w| && NumShape(w, i, j);
      NumLexemeVisible(w, i, j);
  }

  lemma NumExpLexemeVisible(w: string, i: nat)
    requires NumExpShape(w, i)
    ensures Visible(w)
  {
    IntLexemeVisible(w[..i]);
    ExpLexemeVisible(w[i..]);
    forall k | 0 <= k < |w| ensures IsSymChar(w[k]) {
      if k < i { assert w[k] == w[..i][k]; } else { assert w[k] == w[i..][k - i]; }
    }
  }

  lemma NumLexemeVisible(w: string, i: nat, j: nat)
    requires NumShape(w, i, j)
    ensures Visible(w)
  {
    IntLexemeVisible(w[..i]);
    if j < |w| { ExpLexemeVisible(w[j..]); }
    forall k | 0 <= k < |w| ensures IsSymChar(w[k]) {
      if k < i { assert w[k] == w[..i][k]; }
      else if k == i { }
      else if k < j { assert w[k] == w[i + 1..j][k - i - 1]; }
      else { assert w[k] == w[j..][k - j]; }
    }
  }

  // ---------------------------------------------------------------------------
  // Properties of the whole token stream.

  /** The input with skipped characters and line comments removed: an independent reference. */
  function Stripped(s: string): (r: string)
    decreases |s|
  {
    if |s| == 0 then ""
    else if IsIgnored(s[0]) then Stripped(s[1..])
    else if StartsComment(s[0]) then Stripped(AtLineEnd(s[1..]))
    else [s[0]] + Stripped(s[1..])
  }

  /** `s` from its first newline on (empty when there is none). */
  function AtLineEnd(s: string): (r: string)
    ensures |r| <= |s|
  {
    if |s| == 0 || s[0] == '\n' then s else AtLineEnd(s[1..])
  }

  /** The token texts one after another. */
  function Texts(ts: seq<Token>): string {
    if |ts| == 0 then "" else ts[0].text + Texts(ts[1..])
  }

  lemma {:induction false} AtLineEndIsRun(s: string)
    ensures AtLineEnd(s) == s[Run(s, NotNewline)..]
    decreases |s|
  {
    if |s| > 0 && s[0] != '\n' {
      AtLineEndIsRun(s[1..]);
      assert s[1..][Run(s[1..], NotNewline)..] == s[1 + Run(s[1..], NotNewline)..];
    }
  }

  lemma {:induction false} StrippedVisiblePrefix(s: string, n: nat)
    requires n <= |s| && Visible(s[..n])
    ensures Stripped(s) == s[..n] + Stripped(s[n..])
    decreases n
  {
    if n > 0 {
      assert s[0] == s[..n][0];
      assert s[1..][..n - 1] == s[..n][1..];
      StrippedVisiblePrefix(s[1..], n - 1);
      assert s[1..][n - 1..] == s[n..];
      assert s[..n] == [s[0]] + s[1..][..n - 1];
    }
  }

  /**
    Nothing is lost or invented: the token texts, concatenated, are exactly the input
    without its skipped characters and comments.
   */
  lemma {:induction false} LexKeepsText(s: string)
    requires Lex(s).Success?
    ensures Texts(Lex(s).value) == Stripped(s)
    decreases |s|
  {
    if |s| > 0 && !IsIgnored(s[0]) {
      match Match(s)
      case Skip(n) =>
        LexKeepsText(s[n..]);
        AtLineEndIsRun(s[1..]);
        assert s[1..][Run(s[1..], NotNewline)..] == s[n..];
      case Emit(rule, n) =>
        LexKeepsText(s[n..]);
        var t := Token(rule, s[..n]);
        InRuleLanguageVisible(t);
        StrippedVisiblePrefix(s, n);
        assert Lex(s).value == [t] + Lex(s[n..]).value;
        assert ([t] + Lex(s[n..]).value)[1..] == Lex(s[n..]).value;
    } else if |s| > 0 {
      LexKeepsText(s[1..]);
    }
  }

  /** Some rule always matches at a character that is not skipped. */
  lemma MatchTotal(s: string)
    requires 0 < |s| && !IsIgnored(s[0])
    ensures !Match(s).NoMatch?
  {
  }

  /** `t_error` is unreachable: every input tokenizes. */
  lemma {:induction false} LexTotal(s: string)
    ensures Lex(s).Success?
    decreases |s|
  {
    if |s| > 0 {
      if IsIgnored(s[0]) {
        LexTotal(s[1..]);
      } else {
        MatchTotal(s);
        match Match(s)
        case Skip(n) => LexTotal(s[n..]);
        case Emit(_, n) => LexTotal(s[n..]);
      }
    }
  }

  // ---------------------------------------------------------------------------
  // A blank ends every token: the rules look no further than the next skipped character.

  /** `tail` is empty or begins with a character `t_ignore` skips. */
  predicate Stops(tail: string) {
    |tail| == 0 || IsIgnored(tail[0])
  }

  lemma {:induction false} RunLocal(w: string, tail: string, p: CharClass)
    requires |tail| == 0 || !p(tail[0])
    ensures Run(w + tail, p) == Run(w, p)
    decreases |w|
  {
    if |w| == 0 {
      assert w + tail == tail;
    } else if p(w[0]) {
      assert (w + tail)[1..] == w[1..] + tail;
      RunLocal(w[1..], tail, p);
    }
  }

  lemma ExpLenLocal(w: string, tail: string)
    requires Stops(tail)
    ensures ExpLen(w + tail) == ExpLen(w)
  {
    if |w| >= 2 {
      assert (w + tail)[2..] == w[2..] + tail;
      RunLocal(w[2..], tail, IsDecDigit);
    } else if |w| == 1 && |tail| > 0 {
      assert (w + tail)[1] == tail[0];
    } else if |w| == 0 {
      assert w + tail == tail;
    }
  }

  /** `0x` or `0b` followed by a run of digits of `base`: the shape of the two prefixed rules. */
  lemma PrefixedLocal(w: string, tail: string, c: char, p: CharClass)
    requires Stops(tail) && (|tail| == 0 || !p(tail[0])) && !IsIgnored(c)
    ensures var s := w + tail;
      (2 <= |s| && s[0] == '0' && s[1] == c) <==> (2 <= |w| && w[0] == '0' && w[1] == c)
    ensures 2 <= |w| ==> Run((w + tail)[2..], p) == Run(w[2..], p)
  {
    if |w| >= 2 {
      assert (w + tail)[2..] == w[2..] + tail;
      RunLocal(w[2..], tail, p);
    } else if |w| == 1 && |tail| > 0 {
      assert (w + tail)[1] == tail[0];
    } else if |w| == 0 {
      assert w + tail == tail;
    }
  }

  lemma MatchIntLocal(w: string, tail: string)
    requires Stops(tail)
    ensures MatchInt(w + tail) == MatchInt(w)
  {
    var s := w + tail;
    if |w| == 0 {
      assert s == tail;
    } else {
      assert s[0] == w[0];
      var k := SignLen(w);
      assert s[k..] == w[k..] + tail;
      RunLocal(w[k..], tail, IsDecDigit);
    }
  }

  lemma MatchNumLocal(w: string, tail: string)
    requires Stops(tail)
    ensures MatchNum(w + tail) == MatchNum(w)
  {
    MatchIntLocal(w, tail);
    var m := MatchInt(w);
    if 0 < m < |w| && w[m] == '.' {
      NumFractionLocal(w, tail, m);
    } else if 0 < m < |w| {
      assert (w + tail)[m] == w[m];
    } else if 0 < m && m < |w + tail| {
      assert (w + tail)[m] == tail[0];
    }
  }

  lemma NumFractionLocal(w: string, tail: string, m: nat)
    requires Stops(tail) && m == MatchInt(w) == MatchInt(w + tail) && 0 < m < |w| && w[m] == '.'
    ensures MatchNum(w + tail) == MatchNum(w)
  {
    var s := w + tail;
    assert s[m] == w[m];
    assert s[m + 1..] == w[m + 1..] + tail;
    RunLocal(w[m + 1..], tail, IsDecDigit);
    var f := Run(w[m + 1..], IsDecDigit);
    assert s[m + 1 + f..] == w[m + 1 + f..] + tail;
    ExpLenLocal(w[m + 1 + f..], tail);
    var e := ExpLen(w[m + 1 + f..]);
    MatchNumIs(w, m, f, e);
    MatchNumIs(s, m, f, e);
  }

  lemma MatchNumIs(s: string, m: nat, f: nat, e: nat)
    requires m == MatchInt(s) && 0 < m < |s| && s[m] == '.'
    requires f == Run(s[m + 1..], IsDecDigit) && e == ExpLen(s[m + 1 + f..])
    ensures MatchNum(s) == m + 1 + f + e
  {
    NumShapeOfMatch(s, m, f, e);
  }

  lemma MatchNumExpLocal(w: string, tail: string)
    requires Stops(tail)
    ensures MatchNumExp(w + tail) == MatchNumExp(w)
  {
    var s := w + tail;
    MatchIntLocal(w, tail);
    var m := MatchInt(w);
    if m > 0 {
      assert s[m..] == w[m..] + tail;
      ExpLenLocal(w[m..], tail);
    }
  }

  /** At a token that is not followed by more token characters, each rule matches as on the token alone. */
  lemma MatchLocal(w: string, tail: string)
    requires 0 < |w| && Visible(w) && Stops(tail)
    ensures Match(w + tail) == Match(w)
  {
    PrefixedMatchLocal(w, tail);
    MatchNumLocal(w, tail);
    MatchNumExpLocal(w, tail);
    MatchIntLocal(w, tail);
    SymMatchLocal(w, tail);
  }

  lemma PrefixedMatchLocal(w: string, tail: string)
    requires 0 < |w| && Visible(w) && Stops(tail)
    ensures MatchHex(w + tail) == MatchHex(w) && MatchBin(w + tail) == MatchBin(w)
  {
    PrefixedLocal(w, tail, 'x', IsHexDigit);
    PrefixedLocal(w, tail, 'b', IsBinDigit);
  }

  lemma SymMatchLocal(w: string, tail: string)
    requires 0 < |w| && Visible(w) && Stops(tail)
    ensures MatchSym(w + tail) == MatchSym(w) && CommentLen(w + tail) == CommentLen(w)
  {
    var s := w + tail;
    assert s[0] == w[0];
    RunLocal(w, tail, IsSymChar);
  }

  lemma AfterEmpty(r: Lexed)
    ensures After([], r) == r
  {
    if r.Success? {
      assert [] + r.value == r.value;
    }
  }

  /**
    Token characters followed by a blank lex on their own: the tokens of `w + tail` are
    those of `w` and then those of `tail`.
   */
  lemma {:induction false} LexSplitsAtBlank(w: string, tail: string)
    requires Visible(w) && Stops(tail)
    ensures Lex(w).Success? && Lex(w + tail) == After(Lex(w).value, Lex(tail))
    decreases |w|
  {
    if |w| == 0 {
      assert w + tail == tail;
      AfterEmpty(Lex(tail));
    } else {
      var s := w + tail;
      MatchLocal(w, tail);
      MatchTotal(w);
      var n := Match(w).len;
      assert s[..n] == w[..n] && s[n..] == w[n..] + tail;
      LexSplitsAtBlank(w[n..], tail);
      var t := Token(Match(w).rule, w[..n]);
      assert Lex(w).value == [t] + Lex(w[n..]).value;
      AfterAfter([t], Lex(w[n..]).value, Lex(tail));
    }
  }

  /** What the rule order guarantees about one token: integers beat symbols, and a back-tick stands alone. */
  predicate FirstMatchShape(t: Token) {
    && (t.rule == SymRule && 0 < |t.text| ==> !IsDecDigit(t.text[0]))
    && (0 < |t.text| && t.text[0] == '`' ==> t == Token(SymRule, "`"))
  }

  lemma MatchPriority(s: string)
    requires Match(s).Emit?
    ensures FirstMatchShape(Token(Match(s).rule, s[..Match(s).len]))
  {
    var m := Match(s);
    if 0 < |s| && s[0] == '`' {
      assert MatchHex(s) == 0 && MatchBin(s) == 0;
      assert MatchInt(s) == 0;
      assert MatchNum(s) == 0 && MatchNumExp(s) == 0;
    }
    assert s[..m.len][0] == s[0];
  }

  /**
    First match, not longest match, across the whole stream: no symbol starts with a
    decimal digit (so `1e5` is an integer then a symbol) and a back-tick is always its own symbol.
   */
  lemma {:induction false} LexPriority(s: string)
    requires Lex(s).Success?
    ensures forall i :: 0 <= i < |Lex(s).value| ==> FirstMatchShape(Lex(s).value[i])
    decreases |s|
  {
    if |s| > 0 {
      if IsIgnored(s[0]) {
        LexPriority(s[1..]);
      } else {
        var m := Match(s);
        if m.Skip? {
          LexPriority(s[m.len..]);
        } else if m.Emit? {
          LexPriority(s[m.len..]);
          MatchPriority(s);
          LexConsEmit(s);
        }
      }
    }
  }

  /** One emitting step of `Lex`, unfolded. */
  lemma LexConsEmit(s: string)
    requires 0 < |s| && !IsIgnored(s[0]) && Match(s).Emit? && Lex(s).Success?
    ensures Lex(s[Match(s).len..]).Success?
    ensures Lex(s).value == [Token(Match(s).rule, s[..Match(s).len])] + Lex(s[Match(s).len..]).value
  {
  }

  /** A token at the start, then the tokens of the rest. */
  lemma LexEmitThen(s: string, rule: Rule, n: nat, rest: seq<Token>)
    requires 0 < |s| && !IsIgnored(s[0]) && Match(s) == Emit(rule, n) && Lex(s[n..]) == Success(rest)
    ensures Lex(s) == Success([Token(rule, s[..n])] + rest)
  {
  }

  /** The result of `Lex` once the position-by-position scan has produced `acc` before the suffix. */
  function After(acc: seq<Token>, r: Lexed): Lexed {
    match r
    case Success(ts) => Success(acc + ts)
    case Failure(e) => Failure(e)
  }

  lemma AfterAfter(acc: seq<Token>, more: seq<Token>, r: Lexed)
    ensures After(acc, After(more, r)) == After(acc + more, r)
  {
    if r.Success? {
      assert acc + (more + r.value) == (acc + more) + r.value;
    }
  }

  lemma ScanPastIgnored(whole: Lexed, t: string, acc: seq<Token>)
    requires 0 < |t| && IsIgnored(t[0]) && whole == After(acc, Lex(t))
    ensures whole == After(acc, Lex(t[1..]))
  {
  }

  lemma ScanPastSkip(whole: Lexed, t: string, n: nat, acc: seq<Token>)
    requires 0 < |t| && !IsIgnored(t[0]) && Match(t) == Skip(n) && whole == After(acc, Lex(t))
    ensures whole == After(acc, Lex(t[n..]))
  {
  }

  lemma ScanPastEmit(whole: Lexed, t: string, rule: Rule, n: nat, acc: seq<Token>, more: seq<Token>)
    requires 0 < |t| && !IsIgnored(t[0]) && Match(t) == Emit(rule, n) && whole == After(acc, Lex(t))
    requires n <= |t| && more == acc + [Token(rule, t[..n])]
    ensures whole == After(more, Lex(t[n..]))
  {
    AfterAfter(acc, [Token(rule, t[..n])], Lex(t[n..]));
  }

  /** One position of the scan: a blank or a comment is passed over, or a token is appended. */
  method ScanStep(s: string, i: nat, acc: seq<Token>) returns (next: nat, more: seq<Token>)
    requires i < |s| && Lex(s) == After(acc, Lex(s[i..]))
    ensures i < next <= |s| && Lex(s) == After(more, Lex(s[next..]))
  {
    more := acc;
    var t := s[i..];
    if IsIgnored(t[0]) {
      ScanPastIgnored(Lex(s), t, acc);
      next := i + 1;
      assert t[1..] == s[next..];
    } else {
      MatchTotal(t);
      var st := Match(t);
      if st.Skip? {
        ScanPastSkip(Lex(s), t, st.len, acc);
        next := i + st.len;
        assert t[st.len..] == s[next..];
      } else {
        more := acc + [Token(st.rule, t[..st.len])];
        ScanPastEmit(Lex(s), t, st.rule, st.len, acc, more);
        next := i + st.len;
        assert t[st.len..] == s[next..];
      }
    }
  }

  /** The hand-rolled scanner: one pass over the characters, first matching rule at each position. */
  method Scan(s: string) returns (r: Lexed)
    ensures r == Lex(s)
  {
    var i := 0;
    var acc: seq<Token> := [];
    assert s[0..] == s;
    assert After([], Lex(s)) == Lex(s) by {
      if Lex(s).Success? { assert [] + Lex(s).value == Lex(s).value; }
    }
    while i < |s|
      invariant i <= |s|
      invariant Lex(s) == After(acc, Lex(s[i..]))
      decreases |s| - i
    {
      var next, more := ScanStep(s, i, acc);
      i, acc := next, more;
    }
    assert s[i..] == [];
    assert acc + [] == acc;
    return Success(acc);
  }
}
