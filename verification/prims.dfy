/**
  The primitive literal classes the lexer rules return: `Sym` keeps its text, `Int`
  parses a signed decimal, `Hex` and `Bin` parse the digits after their two-character
  prefix in base 16 and base 2, and `Num` keeps the literal it was read from (the
  floating-point conversion is not modelled).
 */
module Prims {
  import opened Wrappers
  import opened Frames
  import opened Numerals
  import opened Lexer
  import opened Words
  import Dump

  /** The node each lexer rule builds from the matched text. */
  function TokenNode(t: Token): (n: Node)
    requires InRuleLanguage(t)
    ensures n.slot == map[] && n.keys == [] && n.nest == [] && IsPrim(n.kind)
    ensures n.kind == Sym <==> t.rule == SymRule
    ensures t.rule == SymRule ==> n.val == Text(t.text)
    ensures t.rule == IntRule ==> n.kind == Int && n.val == Integer(ParseSigned(t.text))
    ensures t.rule == HexRule ==> n.kind == Hex && n.val == Integer(Parse(t.text[2..], 16))
    ensures t.rule == BinRule ==> n.kind == Bin && n.val == Integer(Parse(t.text[2..], 2))
    ensures t.rule == NumRule || t.rule == NumExpRule ==> n.kind == Num && n.val == Real(t.text)
  {
    match t.rule
    case HexRule => NewNode(Hex, Integer(Parse(t.text[2..], 16)))
    case BinRule => NewNode(Bin, Integer(Parse(t.text[2..], 2)))
    case NumRule => NewNode(Num, Real(t.text))
    case NumExpRule => NewNode(Num, Real(t.text))
    case IntRule => NewNode(Int, Integer(ParseSigned(t.text)))
    case SymRule => NewNode(Sym, Text(t.text))
  }

  /** The display of an `Int` is an integer literal that lexes back to one `Int` of the same value. */
  lemma IntDisplayRelexes(i: int)
    ensures Lex(Decimal(i)) == Success([Token(IntRule, Decimal(i))])
    ensures InRuleLanguage(Token(IntRule, Decimal(i)))
    ensures TokenNode(Token(IntRule, Decimal(i))).val == Integer(i)
  {
    DecimalRoundTrip(i);
    LexRuleWord(Token(IntRule, Decimal(i)));
  }

  /** `hex(n)` lexes back to one `Hex` token whose node holds `n`. */
  lemma HexDisplayRelexes(n: nat)
    ensures Lex(HexDisplay(n)) == Success([Token(HexRule, HexDisplay(n))])
    ensures InRuleLanguage(Token(HexRule, HexDisplay(n)))
    ensures TokenNode(Token(HexRule, HexDisplay(n))).val == Integer(n)
  {
    HexRoundTrip(n);
    LexRuleWord(Token(HexRule, HexDisplay(n)));
  }

  /** `bin(n)` lexes back to one `Bin` token whose node holds `n`. */
  lemma BinDisplayRelexes(n: nat)
    ensures Lex(BinDisplay(n)) == Success([Token(BinRule, BinDisplay(n))])
    ensures InRuleLanguage(Token(BinRule, BinDisplay(n)))
    ensures TokenNode(Token(BinRule, BinDisplay(n))).val == Integer(n)
  {
    BinRoundTrip(n);
    LexRuleWord(Token(BinRule, BinDisplay(n)));
  }

  /**
    A `Hex` or `Bin` node shows the lowercase prefixed form of its integer, which denotes
    the same number as the text the literal was read from, whatever its letter case.
   */
  lemma RadixDisplay(t: Token, showFloat: Dump.FloatRepr)
    requires InRuleLanguage(t) && (t.rule == HexRule || t.rule == BinRule)
    ensures var shown := Dump.ValText(TokenNode(t), showFloat);
      && shown[..2] == t.text[..2]
      && (forall i :: 0 <= i < |shown| ==> !('A' <= shown[i] <= 'Z'))
      && AllDigitsOf(shown[2..], if t.rule == HexRule then 16 else 2)
      && Parse(shown[2..], if t.rule == HexRule then 16 else 2)
         == Parse(t.text[2..], if t.rule == HexRule then 16 else 2)
  {
    var shown := Dump.ValText(TokenNode(t), showFloat);
    if t.rule == HexRule {
      var v := Parse(t.text[2..], 16);
      HexRoundTrip(v);
      assert shown == "0x" + Render(v, 16);
    } else {
      var v := Parse(t.text[2..], 2);
      BinRoundTrip(v);
      assert shown == "0b" + Render(v, 2);
    }
  }
}
