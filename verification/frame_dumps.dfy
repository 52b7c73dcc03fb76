/**
  The dumps the repository's test module expects, worked through the model: an empty
  frame, a frame with a slot and a child, a symbol, and the machine's stack after the
  number-literals line. Floating-point display stays a parameter throughout.
 */
module FrameDumps {
  import opened Wrappers
  import opened Frames
  import opened Numerals
  import opened Dump
  import opened Interp
  import opened Words
  import opened Scenarios

  // ---------------------------------------------------------------------------
  // Displays of the integer literals.

  lemma MinusOneDisplay()
    ensures Decimal(-1) == "-1"
  {
    assert Render(1, 10) == ['1'];
  }

  lemma DeadBeefDisplay()
    ensures HexDisplay(0xDEADBEEF) == "0xdeadbeef"
  {
    assert Render(0xD, 16) == ['d'];
    assert Render(0xDE, 16) == ['d', 'e'];
    assert Render(0xDEA, 16) == ['d', 'e', 'a'];
    assert Render(0xDEAD, 16) == ['d', 'e', 'a', 'd'];
    assert Render(0xDEADB, 16) == ['d', 'e', 'a', 'd', 'b'];
    assert Render(0xDEADBE, 16) == ['d', 'e', 'a', 'd', 'b', 'e'];
    assert Render(0xDEADBEE, 16) == ['d', 'e', 'a', 'd', 'b', 'e', 'e'];
    assert Render(0xDEADBEEF, 16) == ['d', 'e', 'a', 'd', 'b', 'e', 'e', 'f'];
  }

  lemma ThirteenDisplay()
    ensures BinDisplay(13) == "0b1101"
  {
    assert Render(1, 2) == ['1'];
    assert Render(3, 2) == ['1', '1'];
    assert Render(6, 2) == ['1', '1', '0'];
    assert Render(13, 2) == ['1', '1', '0', '1'];
  }

  // ---------------------------------------------------------------------------
  // Frames.

  /** A fresh node alone in the arena prints as its header line. */
  lemma LoneNode(n: Node, showFloat: FloatRepr)
    requires n.slot == map[] && n.keys == [] && n.nest == []
    ensures WellFormed([n])
    ensures Test([n], 0, true, showFloat) == "\n" + Head(n, "", showFloat)
  {
    assert n.Valid(1);
    assert SlotChildren(n, [], showFloat) == [] && NestChildren([]) == [];
    DumpLeaf([n], 0, 0, "", true, true, {}, showFloat);
    assert Pad(0) == "\n";
  }

  /** `Frame('').test()` */
  lemma EmptyFrameDump(showFloat: FloatRepr)
    ensures WellFormed([NewNode(Frame, Text(""))])
    ensures Test([NewNode(Frame, Text(""))], 0, true, showFloat) == "\n<frame:>"
  {
    LoneNode(NewNode(Frame, Text("")), showFloat);
  }

  /** `Sym('test').test()` */
  lemma SymbolDump(showFloat: FloatRepr)
    ensures WellFormed([NewNode(Sym, Text("test"))])
    ensures Test([NewNode(Sym, Text("test"))], 0, true, showFloat) == "\n<sym:test>"
  {
    LoneNode(NewNode(Sym, Text("test")), showFloat);
  }

  /** `Frame('Hello') // Frame('World') << Frame('slot')`: `World` pushed, then `slot` bound under its own name. */
  function Hello(): (h: Heap)
    ensures WellFormed(h) && |h| == 3
  {
    var h0 := [NewNode(Frame, Text("Hello"))];
    assert h0[0].Valid(1);
    var (h1, w) := Alloc(h0, NewNode(Frame, Text("World")));
    var h2 := Frames.Push(h1, 0, w);
    var (h3, s) := Alloc(h2, NewNode(Frame, Text("slot")));
    Bind(h3, 0, s)
  }

  /** The three nodes the set-up leaves: `Hello` holds `slot` in a slot and `World` in `nest`. */
  predicate HelloShape(h: Heap) {
    && |h| == 3
    && h[0] == Node(Frame, Text("Hello"), map[Text("slot") := 2], [Text("slot")], [1])
    && h[1] == NewNode(Frame, Text("World"))
    && h[2] == NewNode(Frame, Text("slot"))
  }

  lemma HelloNodes()
    ensures HelloShape(Hello())
  {
  }

  /** The header of a node with a text value: the prefix, then `<type:text>`. */
  lemma TextHead(n: Node, prefix: string, showFloat: FloatRepr)
    requires n.val.Text?
    ensures Head(n, prefix, showFloat) == prefix + "<" + TypeTag(n.kind) + ":" + n.val.s + ">"
  {
  }

  /** The slot is printed before the `nest` child, with its key as prefix. */
  lemma HelloDump(h: Heap, showFloat: FloatRepr)
    requires WellFormed(h) && HelloShape(h)
    ensures Test(h, 0, true, showFloat)
         == "\n" + "<frame:Hello>" + ("\n\t" + "slot = <frame:slot>" + ("\n\t" + "<frame:World>"))
  {
    HelloChildren(h[0], showFloat);
    DumpFlat(h, 0, true, showFloat);
    HelloHeads(h, showFloat);
    LeafLinesTwo(h, Child("slot = ", 2), Child("", 1), 1, showFloat);
    PadsShort();
  }

  lemma HelloChildren(n: Node, showFloat: FloatRepr)
    requires n == Node(Frame, Text("Hello"), map[Text("slot") := 2], [Text("slot")], [1])
    ensures Children(n, true, true, showFloat) == [Child("slot = ", 2), Child("", 1)]
  {
    assert n.keys[1..] == [];
    SlotPrefix();
    assert SlotChildren(n, n.keys, showFloat) == [Child("slot = ", 2)];
    assert n.nest[1..] == [];
    assert NestChildren(n.nest) == [Child("", 1)];
  }

  lemma HelloHeads(h: Heap, showFloat: FloatRepr)
    requires HelloShape(h)
    ensures Head(h[0], "", showFloat) == "<frame:Hello>"
    ensures Head(h[1], "", showFloat) == "<frame:World>"
    ensures Head(h[2], "slot = ", showFloat) == "slot = <frame:slot>"
  {
    TextHead(h[0], "", showFloat);
    TextHead(h[1], "", showFloat);
    TextHead(h[2], "slot = ", showFloat);
    HeadJoins();
  }

  lemma SlotPrefix()
    ensures "slot" + " = " == "slot = "
  {
  }

  lemma HeadJoins()
    ensures "" + "<" + "frame" + ":" + "Hello" + ">" == "<frame:Hello>"
    ensures "" + "<" + "frame" + ":" + "World" + ">" == "<frame:World>"
    ensures "slot = " + "<" + "frame" + ":" + "slot" + ">" == "slot = <frame:slot>"
    ensures "" + "<" + "frame" + ":" + "slot" + ">" == "<frame:slot>"
  {
  }

  lemma PadsShort()
    ensures Pad(0) == "\n" && Pad(1) == "\n\t"
  {
  }

  /** `hello['slot']` is the bound frame, and it prints on its own. */
  lemma HelloSlotDump(h: Heap, showFloat: FloatRepr)
    requires WellFormed(h) && HelloShape(h)
    ensures h[0].Get(Text("slot")) == Success(2)
    ensures Test(h, 2, true, showFloat) == "\n" + "<frame:slot>"
  {
    LoneHead(h, 2, showFloat);
    TextHead(h[2], "", showFloat);
    HeadJoins();
  }

  /** A node with no slots and no `nest`, anywhere in the arena, dumps as its header line. */
  lemma LoneHead(h: Heap, r: Ref, showFloat: FloatRepr)
    requires WellFormed(h) && r < |h| && h[r].keys == [] && h[r].nest == []
    ensures Test(h, r, true, showFloat) == "\n" + Head(h[r], "", showFloat)
  {
    assert SlotChildren(h[r], [], showFloat) == [] && NestChildren([]) == [];
    DumpLeaf(h, r, 0, "", true, true, {}, showFloat);
    assert Pad(0) == "\n";
  }

  // ---------------------------------------------------------------------------
  // The machine after the number-literals line.

  /** The arena the line leaves: the machine node holding the six literal nodes on its stack. */
  predicate NumbersShape(h: Heap) {
    && |h| == 14
    && h[0].kind == VM && h[0].val == Text("metaL") && h[0].nest == [8, 9, 10, 11, 12, 13]
    && h[8] == NewNode(Sym, Text("symbol"))
    && h[9] == NewNode(Int, Integer(-1))
    && h[10] == NewNode(Num, Real("+02.30"))
    && h[11] == NewNode(Num, Real("-4e+5"))
    && h[12] == NewNode(Hex, Integer(0xDEADBEEF))
    && h[13] == NewNode(Bin, Integer(13))
  }

  /** The lines under the machine's header; the two floats print however Python shows them. */
  function NumberLines(showFloat: FloatRepr): seq<string> {
    ["<sym:symbol>", "<int:-1>", "<num:" + showFloat("+02.30") + ">", "<num:" + showFloat("-4e+5") + ">",
     "<hex:0xdeadbeef>", "<bin:0b1101>"]
  }

  /** `M(line)` then `vm.test(voc=False)`: the header, then one line per stack value in source order. */
  lemma NumbersDump(words: seq<string>, comment: string, text: string, showFloat: FloatRepr)
    requires NumberLine(words, comment) && text == Line(words, comment)
    ensures Evaluate(Boot(), text).Ok?
    ensures var next := Evaluate(Boot(), text).m;
      Test(next.heap, next.vm, false, showFloat) == "\n" + "<vm:metaL>" + Indented(NumberLines(showFloat), 1)
  {
    NumbersProgram(words, comment, text);
    var next := Evaluate(Boot(), text).m;
    NumbersShapeDump(next.heap, showFloat);
  }

  lemma NumbersShapeDump(h: Heap, showFloat: FloatRepr)
    requires WellFormed(h) && NumbersShape(h)
    ensures Test(h, 0, false, showFloat) == "\n" + "<vm:metaL>" + Indented(NumberLines(showFloat), 1)
  {
    NumberChildren(h[0], showFloat);
    NumberKidsLeaves(h);
    DumpFlat(h, 0, false, showFloat);
    NumberHeads(h, showFloat);
    NumberKidsLines(h, showFloat);
    LeafLinesIndented(h, NumberKids(), 1, NumberLines(showFloat), showFloat);
    PadsShort();
    VmHead(h[0], showFloat);
  }

  /** The stack entries, printed without prefix. */
  function NumberKids(): seq<Child> {
    [Child("", 8), Child("", 9), Child("", 10), Child("", 11), Child("", 12), Child("", 13)]
  }

  lemma NumberChildren(n: Node, showFloat: FloatRepr)
    requires n.nest == [8, 9, 10, 11, 12, 13]
    ensures Children(n, false, true, showFloat) == NumberKids()
  {
    assert [] + NestChildren(n.nest) == NestChildren(n.nest);
  }

  lemma NumberKidsLeaves(h: Heap)
    requires NumbersShape(h)
    ensures DistinctChildren(NumberKids())
    ensures forall i :: 0 <= i < |NumberKids()| ==>
      NumberKids()[i].ref != 0 && NumberKids()[i].ref < |h| && IsLeaf(h[NumberKids()[i].ref])
  {
  }

  lemma NumberKidsLines(h: Heap, showFloat: FloatRepr)
    requires |h| == 14
    requires Head(h[8], "", showFloat) == "<sym:symbol>"
    requires Head(h[9], "", showFloat) == "<int:-1>"
    requires Head(h[10], "", showFloat) == "<num:" + showFloat("+02.30") + ">"
    requires Head(h[11], "", showFloat) == "<num:" + showFloat("-4e+5") + ">"
    requires Head(h[12], "", showFloat) == "<hex:0xdeadbeef>"
    requires Head(h[13], "", showFloat) == "<bin:0b1101>"
    ensures ChildrenIn(h, NumberKids()) && |NumberLines(showFloat)| == |NumberKids()|
    ensures forall i :: 0 <= i < |NumberKids()| ==>
      Head(h[NumberKids()[i].ref], NumberKids()[i].prefix, showFloat) == NumberLines(showFloat)[i]
  {
  }

  lemma VmHead(n: Node, showFloat: FloatRepr)
    requires n.kind == VM && n.val == Text("metaL")
    ensures Head(n, "", showFloat) == "<vm:metaL>"
  {
    assert "" + "<" + "vm" + ":" + "metaL" + ">" == "<vm:metaL>";
  }

  lemma NumberHeads(h: Heap, showFloat: FloatRepr)
    requires NumbersShape(h)
    ensures Head(h[8], "", showFloat) == "<sym:symbol>"
    ensures Head(h[9], "", showFloat) == "<int:-1>"
    ensures Head(h[10], "", showFloat) == "<num:" + showFloat("+02.30") + ">"
    ensures Head(h[11], "", showFloat) == "<num:" + showFloat("-4e+5") + ">"
    ensures Head(h[12], "", showFloat) == "<hex:0xdeadbeef>"
    ensures Head(h[13], "", showFloat) == "<bin:0b1101>"
  {
    MinusOneDisplay();
    DeadBeefDisplay();
    ThirteenDisplay();
    NumHead(showFloat("+02.30"));
    NumHead(showFloat("-4e+5"));
    LiteralHeads();
  }

  lemma NumHead(x: string)
    ensures "" + "<" + "num" + ":" + x + ">" == "<num:" + x + ">"
  {
  }

  lemma LiteralHeads()
    ensures "" + "<" + "sym" + ":" + "symbol" + ">" == "<sym:symbol>"
    ensures "" + "<" + "int" + ":" + "-1" + ">" == "<int:-1>"
    ensures "" + "<" + "hex" + ":" + "0xdeadbeef" + ">" == "<hex:0xdeadbeef>"
    ensures "" + "<" + "bin" + ":" + "0b1101" + ">" == "<bin:0b1101>"
  {
  }
}
