/**
  The tree dump of a frame graph in test mode (no `@address` suffix). Each node prints
  as a new line of `depth` tabs and `prefix<type:val>`, then its slot children at
  `depth + 1`, each prefixed `key = `, then its `nest` children at `depth + 1`. A node
  already printed during the current top-level dump prints its header and ` _/` only,
  which is what makes the dump finite on cyclic graphs.
 */
module Dump {
  import opened Frames
  import opened Numerals

  /**
    Python's `str` of a float, given the literal it was read from. Floating-point
    rendering is not modelled; callers supply it.
   */
  type FloatRepr = string -> string

  /** `'%s' % v`: how a slot key or a plain value prints. */
  function ScalarText(v: Scalar, showFloat: FloatRepr): string {
    match v
    case Text(s) => s
    case Integer(i) => Decimal(i)
    case Real(w) => showFloat(w)
  }

  /** `_val`: `Hex` and `Bin` re-derive their display from the stored integer. */
  function ValText(n: Node, showFloat: FloatRepr): string {
    match n.val
    case Integer(i) =>
      if n.kind.Hex? then HexDisplay(i)
      else if n.kind.Bin? then BinDisplay(i)
      else Decimal(i)
    case _ => ScalarText(n.val, showFloat)
  }

  /** `head(prefix, test=True)`: `prefix<type:val>`. */
  function Head(n: Node, prefix: string, showFloat: FloatRepr): string {
    prefix + "<" + TypeTag(n.kind) + ":" + ValText(n, showFloat) + ">"
  }

  /** `'%s' % v` of an integer is a literal that `int()` reads back as that integer; text prints as itself. */
  lemma ScalarTextReads(v: Scalar, showFloat: FloatRepr)
    ensures v.Integer? ==> IsIntLexeme(ScalarText(v, showFloat)) && ParseSigned(ScalarText(v, showFloat)) == v.i
    ensures v.Text? ==> ScalarText(v, showFloat) == v.s
    ensures v.Real? ==> ScalarText(v, showFloat) == showFloat(v.lexeme)
  {
    if v.Integer? {
      DecimalRoundTrip(v.i);
    }
  }

  /** What `_val` shows for any node but a `Hex` or `Bin`: `'%s' % val`, so an integer reads back through `int()`. */
  lemma ValTextPlain(n: Node, showFloat: FloatRepr)
    requires !n.kind.Hex? && !n.kind.Bin?
    ensures ValText(n, showFloat) == ScalarText(n.val, showFloat)
    ensures n.val.Integer? ==> IsIntLexeme(ValText(n, showFloat)) && ParseSigned(ValText(n, showFloat)) == n.val.i
  {
    ScalarTextReads(n.val, showFloat);
  }

  /** `hex(val)`: `0x` and hex digits that `int(_, 16)` reads back as the value, or a minus sign before the display of its magnitude. */
  lemma ValTextHex(n: Node, showFloat: FloatRepr)
    requires n.kind.Hex? && n.val.Integer?
    ensures 0 <= n.val.i ==>
      var w := ValText(n, showFloat); |w| > 2 && w[..2] == "0x" && AllDigitsOf(w[2..], 16) && Parse(w[2..], 16) == n.val.i
    ensures n.val.i < 0 ==> ValText(n, showFloat) == "-" + HexDisplay(-n.val.i)
  {
    var i := n.val.i;
    if 0 <= i {
      HexRoundTrip(i);
    } else {
      assert "-0x" + Render(-i, 16) == "-" + ("0x" + Render(-i, 16));
    }
  }

  /** `bin(val)`: `0b` and binary digits that `int(_, 2)` reads back as the value, or a minus sign before the display of its magnitude. */
  lemma ValTextBin(n: Node, showFloat: FloatRepr)
    requires n.kind.Bin? && n.val.Integer?
    ensures 0 <= n.val.i ==>
      var w := ValText(n, showFloat); |w| > 2 && w[..2] == "0b" && AllDigitsOf(w[2..], 2) && Parse(w[2..], 2) == n.val.i
    ensures n.val.i < 0 ==> ValText(n, showFloat) == "-" + BinDisplay(-n.val.i)
  {
    var i := n.val.i;
    if 0 <= i {
      BinRoundTrip(i);
    } else {
      assert "-0b" + Render(-i, 2) == "-" + ("0b" + Render(-i, 2));
    }
  }

  /** A header is the prefix, then `<`, the type tag, `:`, the value, and a closing `>`. */
  lemma HeadShape(n: Node, prefix: string, showFloat: FloatRepr)
    ensures var r := Head(n, prefix, showFloat);
      && |prefix| + 2 <= |r| && r[..|prefix|] == prefix && r[|prefix|] == '<' && r[|r| - 1] == '>'
      && r[|prefix| + 1..|r| - 1] == TypeTag(n.kind) + ":" + ValText(n, showFloat)
  {
    var inner := TypeTag(n.kind) + ":" + ValText(n, showFloat);
    assert Head(n, prefix, showFloat) == prefix + "<" + inner + ">";
    assert (prefix + "<" + inner + ">")[|prefix| + 1..|prefix| + 1 + |inner|] == inner;
  }

  /** `_pad(depth)`: a newline and one tab per level. */
  function Pad(depth: nat): (p: string)
    ensures |p| == depth + 1 && p[0] == '\n'
    ensures forall i :: 1 <= i < |p| ==> p[i] == '\t'
  {
    "\n" + seq(depth, _ => '\t')
  }

  /** One child to print: the prefix it gets (`key = ` for a slot, empty for `nest`) and the node. */
  datatype Child = Child(prefix: string, ref: Ref)

  /** The slot children in insertion order: one `key = ` child per bound key, keys not bound are passed over. */
  function SlotChildren(n: Node, keys: seq<Scalar>, showFloat: FloatRepr): (cs: seq<Child>)
    ensures |cs| <= |keys|
    ensures forall i :: 0 <= i < |cs| ==> cs[i].ref in n.slot.Values
    ensures (forall i :: 0 <= i < |keys| ==> keys[i] in n.slot) ==>
      |cs| == |keys| && forall i :: 0 <= i < |cs| ==> cs[i] == Child(ScalarText(keys[i], showFloat) + " = ", n.slot[keys[i]])
  {
    if |keys| == 0 then []
    else if keys[0] in n.slot then
      [Child(ScalarText(keys[0], showFloat) + " = ", n.slot[keys[0]])] + SlotChildren(n, keys[1..], showFloat)
    else SlotChildren(n, keys[1..], showFloat)
  }

  /** The `nest` children in order. */
  function NestChildren(nest: seq<Ref>): (cs: seq<Child>)
    ensures |cs| == |nest|
    ensures forall i :: 0 <= i < |cs| ==> cs[i] == Child("", nest[i])
  {
    if |nest| == 0 then [] else [Child("", nest[0])] + NestChildren(nest[1..])
  }

  /** What a node prints below its header: slots when `voc`, then `nest` when `stack`. */
  function Children(n: Node, voc: bool, stack: bool, showFloat: FloatRepr): seq<Child> {
    (if voc then SlotChildren(n, n.keys, showFloat) else []) + (if stack then NestChildren(n.nest) else [])
  }

  /** Every index of the arena. */
  function Refs(h: Heap): (s: set<Ref>)
    ensures forall i: nat :: i in s <==> i < |h|
  {
    Below(|h|)
  }

  function Below(n: nat): (s: set<Ref>)
    ensures forall i: nat :: i in s <==> i < n
  {
    if n == 0 then {} else Below(n - 1) + {n - 1}
  }

  predicate ChildrenIn(h: Heap, cs: seq<Child>) {
    forall i :: 0 <= i < |cs| ==> cs[i].ref < |h|
  }

  lemma ChildrenInArena(h: Heap, r: Ref, voc: bool, stack: bool, showFloat: FloatRepr)
    requires WellFormed(h) && r < |h|
    ensures ChildrenIn(h, Children(h[r], voc, stack, showFloat))
  {
    var n := h[r];
    assert n.Valid(|h|);
    var cs := Children(n, voc, stack, showFloat);
    forall i | 0 <= i < |cs| ensures cs[i].ref < |h| {
      var sc := if voc then SlotChildren(n, n.keys, showFloat) else [];
      if i < |sc| {
        assert cs[i] == sc[i];
        assert cs[i].ref in n.slot.Values;
      } else {
        assert stack;
      }
    }
  }

  /**
    `dump(depth, prefix, voc, stack, test=True)` with the list of nodes already printed
    threaded through the calls: the list is reset when `depth` is 0 and otherwise
    shared with the siblings printed before. The second component is that list afterwards.
   */
  function DumpNode(h: Heap, r: Ref, depth: nat, prefix: string, voc: bool, stack: bool,
                    seen: set<Ref>, showFloat: FloatRepr): (out: (string, set<Ref>))
    requires WellFormed(h) && r < |h| && seen <= Refs(h)
    ensures out.1 <= Refs(h) && r in out.1
    ensures depth > 0 ==> seen <= out.1
    ensures Pad(depth) + Head(h[r], prefix, showFloat) <= out.0
    ensures depth > 0 && r in seen ==> out == (Pad(depth) + Head(h[r], prefix, showFloat) + " _/", seen)
    decreases Refs(h) - (if depth == 0 then {} else seen), 0, 0
  {
    var tree := Pad(depth) + Head(h[r], prefix, showFloat);
    var dumped := if depth == 0 then {} else seen;
    if r in dumped then (tree + " _/", dumped)
    else
      ChildrenInArena(h, r, voc, stack, showFloat);
      var sub := DumpList(h, Children(h[r], voc, stack, showFloat), depth + 1, dumped + {r}, showFloat);
      (tree + sub.0, sub.1)
  }

  /** The children printed one after another, each at `depth` with default `voc` and `stack`. */
  function DumpList(h: Heap, cs: seq<Child>, depth: nat, seen: set<Ref>, showFloat: FloatRepr): (out: (string, set<Ref>))
    requires WellFormed(h) && ChildrenIn(h, cs) && seen <= Refs(h) && depth > 0
    ensures seen <= out.1 <= Refs(h)
    ensures forall i :: 0 <= i < |cs| ==> cs[i].ref in out.1
    decreases Refs(h) - seen, 1, |cs|
  {
    if |cs| == 0 then ("", seen)
    else
      assert forall i :: 0 < i < |cs| ==> cs[1..][i - 1] == cs[i];
      var first := DumpNode(h, cs[0].ref, depth, cs[0].prefix, true, true, seen, showFloat);
      var rest := DumpList(h, cs[1..], depth, first.1, showFloat);
      (first.0 + rest.0, rest.1)
  }

  /** `test(voc)`: the whole dump of node `r` from depth 0 with an empty prefix. */
  function Test(h: Heap, r: Ref, voc: bool, showFloat: FloatRepr): (s: string)
    requires WellFormed(h) && r < |h|
    ensures Pad(0) + Head(h[r], "", showFloat) <= s
  {
    DumpNode(h, r, 0, "", voc, true, {}, showFloat).0
  }

  /** The lines a run of already printed children gives: each one's header and ` _/`. */
  function BackRefs(h: Heap, cs: seq<Child>, depth: nat, showFloat: FloatRepr): string
    requires ChildrenIn(h, cs)
  {
    if |cs| == 0 then ""
    else Pad(depth) + Head(h[cs[0].ref], cs[0].prefix, showFloat) + " _/" + BackRefs(h, cs[1..], depth, showFloat)
  }

  /** Children printed earlier in the same top-level dump are not expanded again, and nothing new is marked. */
  lemma {:induction false} DumpListAllSeen(h: Heap, cs: seq<Child>, depth: nat, seen: set<Ref>, showFloat: FloatRepr)
    requires WellFormed(h) && ChildrenIn(h, cs) && seen <= Refs(h) && depth > 0
    requires forall i :: 0 <= i < |cs| ==> cs[i].ref in seen
    ensures DumpList(h, cs, depth, seen, showFloat) == (BackRefs(h, cs, depth, showFloat), seen)
    decreases |cs|
  {
    if |cs| > 0 {
      DumpListAllSeen(h, cs[1..], depth, seen, showFloat);
      var line := Pad(depth) + Head(h[cs[0].ref], cs[0].prefix, showFloat) + " _/";
      assert line + BackRefs(h, cs[1..], depth, showFloat) == BackRefs(h, cs, depth, showFloat);
    }
  }

  /** A node with nothing to print below it is its header alone, and becomes marked. */
  lemma DumpLeaf(h: Heap, r: Ref, depth: nat, prefix: string, voc: bool, stack: bool,
                 seen: set<Ref>, showFloat: FloatRepr)
    requires WellFormed(h) && r < |h| && seen <= Refs(h)
    requires !(depth > 0 && r in seen) && Children(h[r], voc, stack, showFloat) == []
    ensures DumpNode(h, r, depth, prefix, voc, stack, seen, showFloat)
         == (Pad(depth) + Head(h[r], prefix, showFloat), (if depth == 0 then {} else seen) + {r})
  {
    var tree := Pad(depth) + Head(h[r], prefix, showFloat);
    assert tree + "" == tree;
  }

  /**
    A node bound in its own only slot, `n[k] = n`, prints once in full and once as a
    back-reference: the cycle guard is what keeps the dump finite.
   */
  lemma DumpSelfBound(h: Heap, r: Ref, k: Scalar, showFloat: FloatRepr)
    requires WellFormed(h) && r < |h|
    requires h[r].slot == map[k := r] && h[r].keys == [k] && h[r].nest == []
    ensures Test(h, r, true, showFloat)
         == Pad(0) + Head(h[r], "", showFloat) + Pad(1) + Head(h[r], ScalarText(k, showFloat) + " = ", showFloat) + " _/"
  {
    var cs := Children(h[r], true, true, showFloat);
    assert SlotChildren(h[r], [k], showFloat) == [Child(ScalarText(k, showFloat) + " = ", r)];
    assert cs == [Child(ScalarText(k, showFloat) + " = ", r)];
    ChildrenInArena(h, r, true, true, showFloat);
    DumpListAllSeen(h, cs, 1, {r}, showFloat);
    assert {} + {r} == {r};
    var tree := Pad(0) + Head(h[r], "", showFloat);
    assert DumpNode(h, r, 0, "", true, true, {}, showFloat).0 == tree + DumpList(h, cs, 1, {r}, showFloat).0;
    var line := Pad(1) + Head(h[r], ScalarText(k, showFloat) + " = ", showFloat) + " _/";
    assert BackRefs(h, cs, 1, showFloat) == line + BackRefs(h, cs[1..], 1, showFloat);
    assert BackRefs(h, cs[1..], 1, showFloat) == "";
    assert line + "" == line;
  }

  /** A node with no slots and no `nest`: it prints as its header alone. */
  predicate IsLeaf(n: Node) {
    n.keys == [] && n.nest == []
  }

  /** No two children refer to the same node. */
  predicate DistinctChildren(cs: seq<Child>) {
    forall i, j :: 0 <= i < j < |cs| ==> cs[i].ref != cs[j].ref
  }

  /** The lines of a run of children printed as leaves, one header per line. */
  function LeafLines(h: Heap, cs: seq<Child>, depth: nat, showFloat: FloatRepr): string
    requires ChildrenIn(h, cs)
  {
    if |cs| == 0 then ""
    else Pad(depth) + Head(h[cs[0].ref], cs[0].prefix, showFloat) + LeafLines(h, cs[1..], depth, showFloat)
  }

  /** Lines of text, each on a new line indented to `depth`. */
  function Indented(lines: seq<string>, depth: nat): string {
    if |lines| == 0 then "" else Pad(depth) + lines[0] + Indented(lines[1..], depth)
  }

  /** Leaf lines are the children's headers, indented. */
  lemma {:induction false} LeafLinesIndented(h: Heap, cs: seq<Child>, depth: nat, lines: seq<string>, showFloat: FloatRepr)
    requires ChildrenIn(h, cs) && |lines| == |cs|
    requires forall i :: 0 <= i < |cs| ==> Head(h[cs[i].ref], cs[i].prefix, showFloat) == lines[i]
    ensures LeafLines(h, cs, depth, showFloat) == Indented(lines, depth)
    decreases |cs|
  {
    if |cs| > 0 {
      assert forall i :: 0 <= i < |cs| - 1 ==> cs[1..][i] == cs[i + 1] && lines[1..][i] == lines[i + 1];
      LeafLinesIndented(h, cs[1..], depth, lines[1..], showFloat);
    }
  }

  /** Two children printed as leaves: two lines. */
  lemma LeafLinesTwo(h: Heap, a: Child, b: Child, depth: nat, showFloat: FloatRepr)
    requires a.ref < |h| && b.ref < |h|
    ensures ChildrenIn(h, [a, b])
    ensures LeafLines(h, [a, b], depth, showFloat)
         == Pad(depth) + Head(h[a.ref], a.prefix, showFloat) + (Pad(depth) + Head(h[b.ref], b.prefix, showFloat))
  {
    var cs := [a, b];
    assert cs[1..] == [b] && cs[1..][1..] == [];
    var last := Pad(depth) + Head(h[b.ref], b.prefix, showFloat);
    assert LeafLines(h, [b], depth, showFloat) == last + "";
    assert last + "" == last;
  }

  /** Distinct leaf children not printed before each print as their header alone, and all become marked. */
  lemma {:induction false} DumpListLeaves(h: Heap, cs: seq<Child>, depth: nat, seen: set<Ref>, showFloat: FloatRepr)
    requires WellFormed(h) && ChildrenIn(h, cs) && seen <= Refs(h) && depth > 0
    requires DistinctChildren(cs)
    requires forall i :: 0 <= i < |cs| ==> cs[i].ref !in seen && IsLeaf(h[cs[i].ref])
    ensures DumpList(h, cs, depth, seen, showFloat).0 == LeafLines(h, cs, depth, showFloat)
    decreases |cs|
  {
    if |cs| > 0 {
      var r := cs[0].ref;
      assert SlotChildren(h[r], [], showFloat) == [] && NestChildren([]) == [];
      DumpLeaf(h, r, depth, cs[0].prefix, true, true, seen, showFloat);
      assert forall i :: 0 <= i < |cs[1..]| ==> cs[1..][i] == cs[i + 1];
      DumpListLeaves(h, cs[1..], depth, seen + {r}, showFloat);
    }
  }

  /** The whole dump: the header, then the children at depth 1 with only the root marked. */
  lemma DumpRoot(h: Heap, r: Ref, voc: bool, showFloat: FloatRepr)
    requires WellFormed(h) && r < |h|
    ensures ChildrenIn(h, Children(h[r], voc, true, showFloat))
    ensures Test(h, r, voc, showFloat)
         == Pad(0) + Head(h[r], "", showFloat) + DumpList(h, Children(h[r], voc, true, showFloat), 1, {r}, showFloat).0
  {
    ChildrenInArena(h, r, voc, true, showFloat);
    var none: set<Ref> := {};
    assert r !in none && none + {r} == {r};
    assert Test(h, r, voc, showFloat) == DumpNode(h, r, 0, "", voc, true, none, showFloat).0;
  }

  /**
    A node whose children are distinct leaves other than itself prints its header and
    then one line per child, in slot order and then `nest` order.
   */
  lemma DumpFlat(h: Heap, r: Ref, voc: bool, showFloat: FloatRepr)
    requires WellFormed(h) && r < |h|
    requires var cs := Children(h[r], voc, true, showFloat);
      && DistinctChildren(cs) && forall i :: 0 <= i < |cs| ==> cs[i].ref != r && cs[i].ref < |h| && IsLeaf(h[cs[i].ref])
    ensures ChildrenIn(h, Children(h[r], voc, true, showFloat))
    ensures Test(h, r, voc, showFloat)
         == Pad(0) + Head(h[r], "", showFloat) + LeafLines(h, Children(h[r], voc, true, showFloat), 1, showFloat)
  {
    DumpRoot(h, r, voc, showFloat);
    DumpListLeaves(h, Children(h[r], voc, true, showFloat), 1, {r}, showFloat);
  }
}
