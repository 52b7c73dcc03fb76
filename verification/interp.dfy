/**
  The threaded interpreter. A machine is the arena, the index of the virtual machine
  node (its `nest` is the data stack, its `slot` the vocabulary) and the tokens the
  lexer has still to deliver, each already turned into its literal node as the token
  rules do. `INTERP` pops the source string and then repeats: read a
  word, resolve it in the vocabulary if it is a symbol, evaluate what is on top.
 */
module Interp {
  import opened Wrappers
  import opened Frames
  import opened Lexer
  import opened Prims

  /** What a token rule hands over: a fresh literal with no slots and no nested nodes. */
  predicate IsLexed(n: Node) {
    IsPrim(n.kind) && n.slot == map[] && n.keys == [] && n.nest == []
  }

  datatype Machine = Machine(heap: Heap, vm: Ref, input: seq<Node>) {

    predicate Valid() {
      && Frames.WellFormed(heap) && vm < |heap|
      && forall i :: 0 <= i < |input| ==> IsLexed(input[i])
    }

    /** The data stack, bottom first. */
    function Stack(): seq<Ref>
      requires vm < |heap|
    {
      heap[vm].nest
    }

    /** The reference on top of the data stack. */
    function TopRef(): Ref
      requires vm < |heap| && |Stack()| > 0
    {
      Stack()[|Stack()| - 1]
    }

    /** The vocabulary: the virtual machine's slots. */
    function Vocabulary(): map<Scalar, Ref>
      requires vm < |heap|
    {
      heap[vm].slot
    }
  }

  /** What ends an interpretation early: a Python exception, or a word that cannot be resolved. */
  datatype Fault =
    | Raised(error: FrameError)       // KeyError or IndexError from a frame operation
    | NoEval(kind: Kind)              // AttributeError: only Prim and Cmd define `eval`
    | Unresolved(token: Scalar)       // SyntaxError: a symbol missing from the vocabulary
    | SourceNotText                   // the popped source has no text for the lexer
    | LexFault(lexError: LexError)    // `t_error`

  /** How a run ends: normally, by `BYE` (`sys.exit`), or by an exception; the state is kept in every case. */
  datatype Outcome = Ok(m: Machine) | Halted(m: Machine) | Failed(fault: Fault, m: Machine)

  /** `m2` is `m1` with possibly more nodes and a different stack, and nothing else changed. */
  predicate Grows(m1: Machine, m2: Machine) {
    && m1.vm < |m1.heap| <= |m2.heap|
    && m2.vm == m1.vm
    && (forall i :: 0 <= i < |m1.heap| && i != m1.vm ==> m2.heap[i] == m1.heap[i])
    && m2.heap[m1.vm].kind == m1.heap[m1.vm].kind
    && m2.heap[m1.vm].val == m1.heap[m1.vm].val
    && m2.heap[m1.vm].slot == m1.heap[m1.vm].slot
    && m2.heap[m1.vm].keys == m1.heap[m1.vm].keys
  }

  lemma GrowsTransitive(m1: Machine, m2: Machine, m3: Machine)
    requires Grows(m1, m2) && Grows(m2, m3)
    ensures Grows(m1, m3)
  {
  }

  /** The machine with the virtual machine's stack replaced. */
  function WithStack(m: Machine, s: seq<Ref>): (next: Machine)
    requires m.Valid() && forall i :: 0 <= i < |s| ==> s[i] < |m.heap|
    ensures next.Valid() && Grows(m, next) && |next.heap| == |m.heap| && next.input == m.input
    ensures next.Stack() == s
  {
    var n := m.heap[m.vm];
    assert n.Valid(|m.heap|);
    m.(heap := m.heap[m.vm := n.(nest := s)])
  }

  /** `ctx // node` for a node already in the arena. */
  function Push(m: Machine, r: Ref): (next: Machine)
    requires m.Valid() && r < |m.heap|
    ensures next.Valid() && Grows(m, next) && |next.heap| == |m.heap| && next.input == m.input
    ensures next.Stack() == m.Stack() + [r]
  {
    assert m.heap[m.vm].Valid(|m.heap|);
    WithStack(m, m.Stack() + [r])
  }

  /** `ctx.pop()` on a non-empty stack: the top reference and the machine without it. */
  function PopTop(m: Machine): (r: (Machine, Ref))
    requires m.Valid() && |m.Stack()| > 0
    ensures r.0.Valid() && Grows(m, r.0) && |r.0.heap| == |m.heap| && r.0.input == m.input
    ensures r.1 < |m.heap|
    ensures r.0.Stack() + [r.1] == m.Stack()
  {
    var s := m.Stack();
    assert m.heap[m.vm].Valid(|m.heap|);
    assert s[..|s| - 1] + [s[|s| - 1]] == s;
    (WithStack(m, s[..|s| - 1]), s[|s| - 1])
  }

  /** `ctx.dropall()`. */
  function DropAll(m: Machine): (next: Machine)
    requires m.Valid()
    ensures next.Valid() && Grows(m, next) && |next.heap| == |m.heap| && next.input == m.input
    ensures next.Stack() == []
  {
    WithStack(m, [])
  }

  /** `WORD`: takes the next token, if any, adds its node to the arena and pushes it. */
  function Word(m: Machine): (r: (Machine, bool))
    requires m.Valid()
    ensures r.0.Valid() && Grows(m, r.0)
    ensures r.1 <==> |m.input| > 0
    ensures !r.1 ==> r.0 == m
    ensures r.1 ==> && r.0.input == m.input[1..]
                    && |r.0.heap| == |m.heap| + 1
                    && r.0.heap[|m.heap|] == m.input[0]
                    && r.0.Stack() == m.Stack() + [|m.heap|]
  {
    if |m.input| == 0 then (m, false)
    else
      var (h, t) := Alloc(m.heap, m.input[0]);
      var m1 := Machine(h, m.vm, m.input[1..]);
      (Push(m1, t), true)
  }

  /**
    `FIND` on a non-empty stack: pops the token and pushes what the vocabulary binds to
    its value (a hit), or pushes the token back (a miss, which leaves the machine as it was).
   */
  function FindTop(m: Machine): (r: (Machine, bool))
    requires m.Valid() && |m.Stack()| > 0
    ensures r.0.Valid() && Grows(m, r.0) && |r.0.heap| == |m.heap| && r.0.input == m.input
    ensures var key := m.heap[m.Stack()[|m.Stack()| - 1]].val;
      && (r.1 <==> key in m.Vocabulary())
      && (r.1 ==> r.0.Stack() == m.Stack()[..|m.Stack()| - 1] + [m.Vocabulary()[key]])
      && (!r.1 ==> r.0 == m)
  {
    var (m1, token) := PopTop(m);
    match m1.heap[m1.vm].Get(m1.heap[token].val)
    case Success(b) =>
      assert m1.heap[m1.vm].Valid(|m1.heap|);
      (Push(m1, b), true)
    case Failure(_) =>
      assert m1.heap[m.vm := m1.heap[m.vm].(nest := m.Stack())] == m.heap;
      (Push(m1, token), false)
  }

  /** `FIND` as written: `IndexError` on an empty stack. */
  function Find(m: Machine): (r: Result<(Machine, bool), Fault>)
    requires m.Valid()
    ensures r.Failure? <==> |m.Stack()| == 0
    ensures r.Failure? ==> r.error == Raised(IndexOutOfRange)
    ensures r.Success? ==> r.value == FindTop(m)
  {
    if |m.Stack()| == 0 then Failure(Raised(IndexOutOfRange)) else Success(FindTop(m))
  }

  /** The native functions: `WORD` reads on, `DOT` drops all, `Q` only prints, `QQ` and `BYE` exit. */
  function Apply(f: Builtin, m: Machine): (o: Outcome)
    requires m.Valid()
    ensures o.m.Valid() && Grows(m, o.m) && |o.m.input| <= |m.input|
    ensures o.Failed? == false
    ensures o.Halted? <==> f == QQ || f == BYE
    ensures f != WORD && f != DOT ==> o.m == m
    ensures f == DOT ==> o.m.Stack() == [] && |o.m.heap| == |m.heap| && o.m.input == m.input
    ensures f == WORD && |m.input| > 0 ==>
      o.m.input == m.input[1..] && o.m.Stack() == m.Stack() + [|m.heap|]
      && |o.m.heap| == |m.heap| + 1 && o.m.heap[|m.heap|] == m.input[0]
    ensures f == WORD && |m.input| == 0 ==> o.m == m
  {
    match f
    case WORD => Ok(Word(m).0)
    case DOT => Ok(DropAll(m))
    case Q => Ok(m)
    case QQ => Halted(m)
    case BYE => Halted(m)
  }

  /** `EVAL` on a non-empty stack: pops the top and runs its `eval`. */
  function EvalTop(m: Machine): (o: Outcome)
    requires m.Valid() && |m.Stack()| > 0
    ensures o.m.Valid() && Grows(m, o.m) && |o.m.input| <= |m.input|
    ensures var k := m.heap[m.TopRef()].kind;
      && (IsPrim(k) ==> o == Ok(m))
      && (k.Cmd? ==> o == Apply(k.fn, PopTop(m).0))
      && (!IsPrim(k) && !k.Cmd? ==> o == Failed(NoEval(k), PopTop(m).0))
  {
    var (m1, r) := PopTop(m);
    var n := m1.heap[r];
    if IsPrim(n.kind) then
      assert m1.heap[m.vm := m1.heap[m.vm].(nest := m.Stack())] == m.heap;
      Ok(Push(m1, r))
    else if n.kind.Cmd? then Apply(n.kind.fn, m1)
    else Failed(NoEval(n.kind), m1)
  }

  /** `EVAL` as written: `IndexError` on an empty stack, otherwise the top is popped and evaluated. */
  function Eval(m: Machine): (o: Outcome)
    requires m.Valid()
    ensures o.m.Valid() && Grows(m, o.m)
    ensures |m.Stack()| == 0 <==> o == Failed(Raised(IndexOutOfRange), m)
    ensures |m.Stack()| > 0 ==> o == EvalTop(m)
  {
    if |m.Stack()| == 0 then Failed(Raised(IndexOutOfRange), m) else EvalTop(m)
  }

  /** One cycle after `WORD` has pushed a token: resolve it if it is a `Sym`, then evaluate. */
  function Dispatch(m: Machine): (o: Outcome)
    requires m.Valid() && |m.Stack()| > 0
    ensures o.m.Valid() && Grows(m, o.m) && |o.m.input| <= |m.input|
    ensures var t := m.heap[m.TopRef()];
      && (t.kind != Sym ==> o == EvalTop(m))
      && (t.kind == Sym && t.val !in m.Vocabulary() ==> o == Failed(Unresolved(t.val), m))
      && (t.kind == Sym && t.val in m.Vocabulary() ==>
            o == EvalTop(WithStack(m, m.Stack()[..|m.Stack()| - 1] + [m.Vocabulary()[t.val]])))
  {
    var top := m.Stack()[|m.Stack()| - 1];
    if m.heap[top].kind == Sym then
      var (m2, hit) := FindTop(m);
      if !hit then Failed(Unresolved(m.heap[top].val), m2)
      else
        FindHit(m);
        EvalTop(m2)
    else EvalTop(m)
  }

  /** The `while True` loop of `INTERP`: ends when the tokens run out, on `BYE`, or on the first fault. */
  function Loop(m: Machine): (o: Outcome)
    requires m.Valid()
    ensures o.m.Valid() && Grows(m, o.m)
    ensures o.Ok? ==> o.m.input == []
    decreases |m.input|
  {
    var (m1, more) := Word(m);
    if !more then Ok(m1)
    else
      match Dispatch(m1)
      case Ok(m2) =>
        var o := Loop(m2);
        GrowsTransitive(m, m2, o.m);
        o
      case Halted(m2) => Halted(m2)
      case Failed(f, m2) => Failed(f, m2)
  }

  /** The nodes the token rules build, in token order. */
  function LexedNodes(ts: seq<Token>): (ns: seq<Node>)
    requires forall i :: 0 <= i < |ts| ==> InRuleLanguage(ts[i])
    ensures |ns| == |ts|
    ensures forall i :: 0 <= i < |ts| ==> ns[i] == TokenNode(ts[i]) && IsLexed(ns[i])
  {
    seq(|ts|, i requires 0 <= i < |ts| => TokenNode(ts[i]))
  }

  /** `INTERP`: installs a fresh lexer, pops the source string and runs the loop over its tokens. */
  function Interpret(m: Machine): (o: Outcome)
    requires m.Valid()
    ensures o.m.Valid() && Grows(m, o.m)
  {
    var m0 := m.(input := []);
    if |m0.Stack()| == 0 then Failed(Raised(IndexOutOfRange), m0)
    else
      var (m1, src) := PopTop(m0);
      match m1.heap[src].val
      case Text(s) =>
        (match Lex(s)
         case Success(ts) =>
           var o := Loop(m1.(input := LexedNodes(ts)));
           o
         case Failure(e) => Failed(LexFault(e), m1))
      case _ => Failed(SourceNotText, m1)
  }

  /** `M(cmd)`: pushes the text as a `Str` and interprets it. */
  function Evaluate(m: Machine, text: string): (o: Outcome)
    requires m.Valid()
    ensures o.m.Valid() && Grows(m, o.m)
  {
    var (h, s) := Alloc(m.heap, NewNode(Str, Text(text)));
    var m1 := Push(m.(heap := h), s);
    var o := Interpret(m1);
    o
  }

  // ---------------------------------------------------------------------------
  // Binding native functions: the `VM` setters and the built-in vocabulary.

  /** The right-hand side of `vm[key] = F` or `vm << F`: a node, or a native function. */
  datatype Value = NodeValue(r: Ref) | Callable(f: Builtin)

  /** `Cmd(F)`: a command node whose value is the function's name. */
  function CmdNode(f: Builtin): (n: Node)
    ensures n.kind == Cmd(f) && n.val == Text(BuiltinName(f)) && n.slot == map[] && n.nest == []
    ensures forall bound: nat :: n.Valid(bound)
  {
    NewNode(Cmd(f), Text(BuiltinName(f)))
  }

  /** The node a value denotes once bound: a callable is wrapped in a fresh command node first. */
  function Materialize(h: Heap, v: Value): (r: (Heap, Ref))
    requires Frames.WellFormed(h) && (v.NodeValue? ==> v.r < |h|)
    ensures Frames.WellFormed(r.0) && r.1 < |r.0| && |h| <= |r.0|
    ensures forall i :: 0 <= i < |h| ==> r.0[i] == h[i]
    ensures v.NodeValue? ==> r == (h, v.r)
    ensures v.Callable? ==> r.1 == |h| && r.0 == h + [CmdNode(v.f)]
  {
    match v
    case NodeValue(b) => (h, b)
    case Callable(f) => Alloc(h, CmdNode(f))
  }

  /** `VM.__setitem__`: binds `key` to the node, or to a new command wrapping the function. */
  function VmSetItem(h: Heap, vm: Ref, key: Scalar, v: Value): (updated: Heap)
    requires Frames.WellFormed(h) && vm < |h| && (v.NodeValue? ==> v.r < |h|)
    ensures Frames.WellFormed(updated) && vm < |updated| && |h| <= |updated|
    ensures updated[vm].Get(key).Success?
    ensures v.NodeValue? ==> updated[vm].Get(key).value == v.r && |updated| == |h|
    ensures v.Callable? ==> updated[vm].Get(key).value == |h| && |updated| == |h| + 1 && updated[|h|] == CmdNode(v.f)
    ensures forall k :: k != key ==> updated[vm].Get(k) == h[vm].Get(k)
    ensures updated[vm].slot == h[vm].slot[key := updated[vm].Get(key).value]
    ensures updated[vm].keys == if key in h[vm].slot then h[vm].keys else h[vm].keys + [key]
    ensures updated[vm].nest == h[vm].nest && updated[vm].kind == h[vm].kind && updated[vm].val == h[vm].val
    ensures forall i :: 0 <= i < |h| && i != vm ==> updated[i] == h[i]
  {
    var (h1, b) := Materialize(h, v);
    SetItem(h1, vm, key, b)
  }

  /** The key `vm << F` binds under: the function's name, or the node's own value. */
  function BindKey(h: Heap, v: Value): Scalar
    requires v.NodeValue? ==> v.r < |h|
  {
    match v
    case NodeValue(b) => h[b].val
    case Callable(f) => Text(BuiltinName(f))
  }

  /** `VM.__lshift__`: binds the node, or a new command wrapping the function, under its own value. */
  function VmBind(h: Heap, vm: Ref, v: Value): (updated: Heap)
    requires Frames.WellFormed(h) && vm < |h| && (v.NodeValue? ==> v.r < |h|)
    ensures updated == VmSetItem(h, vm, BindKey(h, v), v)
  {
    var (h1, b) := Materialize(h, v);
    Bind(h1, vm, b)
  }

  /**
    The arena after the first `i` statements of the module-level set-up: `vm = VM('metaL')`,
    then `vm['vm'] = vm`, `vm << BYE`, and `vm['?']`, `vm['??']`, `vm['.']`, `` vm['`'] ``.
   */
  function BootHeap(i: nat): (h: Heap)
    requires i <= 6
    ensures Frames.WellFormed(h) && |h| == if i == 0 then 1 else i
    decreases i
  {
    if i == 0 then [NewNode(VM, Text("metaL"))]
    else if i == 1 then VmSetItem(BootHeap(0), 0, Text("vm"), NodeValue(0))
    else if i == 2 then VmBind(BootHeap(1), 0, Callable(BYE))
    else if i == 3 then VmSetItem(BootHeap(2), 0, Text("?"), Callable(Q))
    else if i == 4 then VmSetItem(BootHeap(3), 0, Text("??"), Callable(QQ))
    else if i == 5 then VmSetItem(BootHeap(4), 0, Text("."), Callable(DOT))
    else VmSetItem(BootHeap(5), 0, Text("`"), Callable(WORD))
  }

  /** The machine once the set-up has run: node 0 is `vm`, with an empty stack and no input. */
  function Boot(): (m: Machine)
    ensures m.Valid()
  {
    Machine(BootHeap(6), 0, [])
  }

  /** The names bound at start-up, in binding order, and the functions behind names 1 to 5. */
  function BootName(i: nat): Scalar
    requires i < 6
  {
    if i == 0 then Text("vm")
    else if i == 1 then Text("BYE")
    else if i == 2 then Text("?")
    else if i == 3 then Text("??")
    else if i == 4 then Text(".")
    else Text("`")
  }

  function BootFunction(i: nat): Builtin
    requires 1 <= i < 6
  {
    if i == 1 then BYE
    else if i == 2 then Q
    else if i == 3 then QQ
    else if i == 4 then DOT
    else WORD
  }
  /** The machine node once the first `i` names are bound. */
  function BootNode(i: nat): Node
    requires 1 <= i <= 6
  {
    if i == 1 then Node(VM, Text("metaL"),
      map[Text("vm") := 0],
      [Text("vm")], [])
    else if i == 2 then Node(VM, Text("metaL"),
      map[Text("vm") := 0, Text("BYE") := 1],
      [Text("vm"), Text("BYE")], [])
    else if i == 3 then Node(VM, Text("metaL"),
      map[Text("vm") := 0, Text("BYE") := 1, Text("?") := 2],
      [Text("vm"), Text("BYE"), Text("?")], [])
    else if i == 4 then Node(VM, Text("metaL"),
      map[Text("vm") := 0, Text("BYE") := 1, Text("?") := 2, Text("??") := 3],
      [Text("vm"), Text("BYE"), Text("?"), Text("??")], [])
    else if i == 5 then Node(VM, Text("metaL"),
      map[Text("vm") := 0, Text("BYE") := 1, Text("?") := 2, Text("??") := 3, Text(".") := 4],
      [Text("vm"), Text("BYE"), Text("?"), Text("??"), Text(".")], [])
    else Node(VM, Text("metaL"),
      map[Text("vm") := 0, Text("BYE") := 1, Text("?") := 2, Text("??") := 3, Text(".") := 4, Text("`") := 5],
      [Text("vm"), Text("BYE"), Text("?"), Text("??"), Text("."), Text("`")], [])
  }

  /** The command nodes allocated once the first `i` names are bound. */
  function BootTail(i: nat): seq<Node>
    requires 1 <= i <= 6
  {
    if i == 1 then []
    else if i == 2 then [CmdNode(BYE)]
    else if i == 3 then [CmdNode(BYE), CmdNode(Q)]
    else if i == 4 then [CmdNode(BYE), CmdNode(Q), CmdNode(QQ)]
    else if i == 5 then [CmdNode(BYE), CmdNode(Q), CmdNode(QQ), CmdNode(DOT)]
    else [CmdNode(BYE), CmdNode(Q), CmdNode(QQ), CmdNode(DOT), CmdNode(WORD)]
  }

  /** Name `i` is not yet bound once the first `i` names are. */
  lemma BootNameFresh(i: nat)
    requires 1 <= i < 6
    ensures BootName(i) !in BootNode(i).slot
  {
    if i == 1 {
      assert "BYE" != "vm" by { assert |"BYE"| != |"vm"|; }
    } else if i == 2 {
      assert "?" != "vm" && "?" != "BYE" by { assert |"?"| == 1; }
    } else if i == 3 {
      assert "??" != "vm" by { assert "??"[0] != "vm"[0]; }
      assert "??" != "BYE" && "??" != "?" by { assert |"??"| == 2; }
    } else if i == 4 {
      assert "." != "vm" && "." != "BYE" && "." != "??" by { assert |"."| == 1; }
      assert "." != "?" by { assert "."[0] != "?"[0]; }
    } else {
      assert "`" != "vm" && "`" != "BYE" && "`" != "??" by { assert |"`"| == 1; }
      assert "`" != "?" && "`" != "." by { assert "`"[0] != "?"[0] && "`"[0] != "."[0]; }
    }
  }

  /** Binding name `i` to node `i` turns the machine node after `i` names into the one after `i + 1`. */
  lemma BootNodeGrows(i: nat)
    requires 1 <= i < 6
    ensures BootNode(i).(slot := BootNode(i).slot[BootName(i) := i], keys := BootNode(i).keys + [BootName(i)])
         == BootNode(i + 1)
  {
    assert BootNode(i).keys + [BootName(i)] == BootNode(i + 1).keys;
  }

  /** Binding name `i` appends command `i` to the commands already allocated. */
  lemma BootTailGrows(i: nat)
    requires 1 <= i < 6
    ensures BootTail(i) + [CmdNode(BootFunction(i))] == BootTail(i + 1)
  {
  }

  /** Registering a function under a new name at the machine node 0 of a heap. */
  lemma RegisterNew(h: Heap, n: Node, tail: seq<Node>, key: Scalar, f: Builtin)
    requires Frames.WellFormed(h) && h == [n] + tail && key !in n.slot
    ensures VmSetItem(h, 0, key, Callable(f))
         == [n.(slot := n.slot[key := |h|], keys := n.keys + [key])] + (tail + [CmdNode(f)])
  {
    var updated := VmSetItem(h, 0, key, Callable(f));
    assert updated[1..] == tail + [CmdNode(f)];
    assert updated[0] == n.(slot := n.slot[key := |h|], keys := n.keys + [key]);
    assert updated == [updated[0]] + updated[1..];
  }

  /** One start-up registration, `vm[name] = F`, from the state after `i` names. */
  lemma BootRegister(h: Heap, i: nat)
    requires 1 <= i < 6 && Frames.WellFormed(h) && h == [BootNode(i)] + BootTail(i)
    ensures VmSetItem(h, 0, BootName(i), Callable(BootFunction(i))) == [BootNode(i + 1)] + BootTail(i + 1)
  {
    BootNameFresh(i);
    BootNodeGrows(i);
    BootTailGrows(i);
    assert |h| == i;
    RegisterNew(h, BootNode(i), BootTail(i), BootName(i), BootFunction(i));
  }

  /** `vm['vm'] = vm`: the first binding, the machine to itself. */
  lemma BootSelf()
    ensures BootHeap(1) == [BootNode(1)] + BootTail(1)
  {
    var h1 := BootHeap(1);
    assert |h1| == 1 && h1[0].keys == [] + [Text("vm")];
    assert h1[0].slot == map[Text("vm") := 0];
    assert h1[0] == BootNode(1);
  }

  /**
    The built-in vocabulary: `vm` is the machine itself (the deliberate cycle), the
    other five names are commands, in this slot order, and the stack is empty.
   */
  lemma BootVocabulary()
    ensures var m := Boot();
      && m.vm == 0 && m.Stack() == [] && m.input == [] && |m.heap| == 6
      && m.heap[0].kind == VM && m.heap[0].val == Text("metaL")
      && m.heap[0].keys == [Text("vm"), Text("BYE"), Text("?"), Text("??"), Text("."), Text("`")]
      && m.Vocabulary() == map[Text("vm") := 0, Text("BYE") := 1, Text("?") := 2,
                               Text("??") := 3, Text(".") := 4, Text("`") := 5]
      && m.heap[1..] == [CmdNode(BYE), CmdNode(Q), CmdNode(QQ), CmdNode(DOT), CmdNode(WORD)]
  {
    BootShape(6);
    assert ([BootNode(6)] + BootTail(6))[1..] == BootTail(6);
  }

  /** The arena after `i` set-up steps is the machine node with the first `i` names and their commands. */
  predicate BootAt(i: nat)
    requires 1 <= i <= 6
  {
    BootHeap(i) == [BootNode(i)] + BootTail(i)
  }

  /** Each set-up step moves the arena from the state after `i - 1` names to the state after `i`. */
  lemma BootStep(i: nat)
    requires 2 <= i <= 6 && BootAt(i - 1)
    ensures BootAt(i)
  {
    BootHeapRegisters(i);
    BootRegister(BootHeap(i - 1), i - 1);
  }

  /** Every set-up step after the first registers name `i - 1`; `vm << BYE` does it under the function's own name. */
  lemma BootHeapRegisters(i: nat)
    requires 2 <= i <= 6
    ensures BootHeap(i) == VmSetItem(BootHeap(i - 1), 0, BootName(i - 1), Callable(BootFunction(i - 1)))
  {
    match i
    case 2 => assert BindKey(BootHeap(1), Callable(BYE)) == BootName(1);
    case 3 =>
    case 4 =>
    case 5 =>
    case 6 =>
  }

  lemma {:induction false} BootShape(i: nat)
    requires 1 <= i <= 6
    ensures BootAt(i)
    decreases i
  {
    if i == 1 {
      BootSelf();
    } else {
      BootShape(i - 1);
      BootStep(i);
    }
  }

  // ---------------------------------------------------------------------------
  // One cycle of the loop.

  /** A `FIND` hit replaces the token on top of the stack by the node its value names. */
  lemma FindHit(m: Machine)
    requires m.Valid() && |m.Stack()| > 0 && m.heap[m.TopRef()].val in m.Vocabulary()
    ensures FindTop(m).0 == WithStack(m, m.Stack()[..|m.Stack()| - 1] + [m.Vocabulary()[m.heap[m.TopRef()].val]])
  {
    var m2 := FindTop(m).0;
    var w := WithStack(m, m.Stack()[..|m.Stack()| - 1] + [m.Vocabulary()[m.heap[m.TopRef()].val]]);
    assert m2.heap[m.vm] == w.heap[m.vm];
    assert m2.heap == w.heap;
  }

  /** `Prim.eval` pushes the node it popped, so evaluating a literal leaves the machine as it was. */
  lemma EvalPrimIsIdentity(m: Machine)
    requires m.Valid() && |m.Stack()| > 0 && IsPrim(m.heap[m.Stack()[|m.Stack()| - 1]].kind)
    ensures EvalTop(m) == Ok(m)
  {
    var (m1, r) := PopTop(m);
    assert m1.heap[m.vm := m1.heap[m.vm].(nest := m.Stack())] == m.heap;
  }

  /** A literal token is pushed and stays pushed: the cycle ends in the state `WORD` left. */
  lemma LiteralCycle(m: Machine)
    requires m.Valid() && |m.input| > 0 && m.input[0].kind != Sym
    ensures Dispatch(Word(m).0) == Ok(Word(m).0)
  {
    EvalPrimIsIdentity(Word(m).0);
  }

  /**
    A symbol bound to a command runs that command exactly once, on the stack as it was
    before the symbol was read; neither the symbol nor the command stays on the stack.
   */
  lemma CommandCycle(m: Machine, f: Builtin)
    requires m.Valid() && |m.input| > 0 && m.input[0].kind == Sym
    requires m.input[0].val in m.Vocabulary()
    requires m.heap[m.Vocabulary()[m.input[0].val]].kind == Cmd(f)
    ensures Dispatch(Word(m).0) == Apply(f, Machine(m.heap + [m.input[0]], m.vm, m.input[1..]))
  {
    var m1 := Word(m).0;
    var (m2, hit) := FindTop(m1);
    var (m3, c) := PopTop(m2);
    var expected := Machine(m.heap + [m.input[0]], m.vm, m.input[1..]);
    assert m3.heap == expected.heap;
  }

  /** A symbol missing from the vocabulary aborts the run with the symbol left on top. */
  lemma UnresolvedCycle(m: Machine)
    requires m.Valid() && |m.input| > 0 && m.input[0].kind == Sym
    requires m.input[0].val !in m.Vocabulary()
    ensures Dispatch(Word(m).0) == Failed(Unresolved(m.input[0].val), Word(m).0)
    ensures Loop(m) == Failed(Unresolved(m.input[0].val), Word(m).0)
  {
  }

  /**
    A symbol bound to a frame whose class defines no `eval` (neither a `Prim` nor a `Cmd`):
    `FIND` replaces the symbol by that frame and `EVAL` pops it and raises `AttributeError`,
    leaving the stack as it was before the symbol was read.
   */
  lemma NoEvalCycle(m: Machine)
    requires m.Valid() && |m.input| > 0 && m.input[0].kind == Sym && m.input[0].val in m.Vocabulary()
    requires !IsPrim(m.heap[m.Vocabulary()[m.input[0].val]].kind) && !m.heap[m.Vocabulary()[m.input[0].val]].kind.Cmd?
    ensures Loop(m).Failed? && Loop(m).fault == NoEval(m.heap[m.Vocabulary()[m.input[0].val]].kind)
    ensures Loop(m).m.Stack() == m.Stack()
  {
    var b := m.Vocabulary()[m.input[0].val];
    assert m.heap[m.vm].Valid(|m.heap|);
    var m1 := Word(m).0;
    assert m1.heap[m1.TopRef()] == m.input[0];
    assert m1.Vocabulary() == m.Vocabulary();
    assert m1.Stack()[..|m1.Stack()| - 1] == m.Stack();
    NoEvalDispatch(m1);
  }

  /** The cycle of `NoEvalCycle` once `WORD` has pushed the symbol. */
  lemma NoEvalDispatch(m: Machine)
    requires m.Valid() && |m.Stack()| > 0
    requires m.heap[m.TopRef()].kind == Sym && m.heap[m.TopRef()].val in m.Vocabulary()
    requires !IsPrim(m.heap[m.Vocabulary()[m.heap[m.TopRef()].val]].kind)
    requires !m.heap[m.Vocabulary()[m.heap[m.TopRef()].val]].kind.Cmd?
    ensures Dispatch(m).Failed? && Dispatch(m).fault == NoEval(m.heap[m.Vocabulary()[m.heap[m.TopRef()].val]].kind)
    ensures Dispatch(m).m.Stack() == m.Stack()[..|m.Stack()| - 1]
  {
    var b := m.Vocabulary()[m.heap[m.TopRef()].val];
    assert m.heap[m.vm].Valid(|m.heap|);
    var w := WithStack(m, m.Stack()[..|m.Stack()| - 1] + [b]);
    assert w.TopRef() == b && w.heap[b].kind == m.heap[b].kind;
    assert PopTop(w).0.Stack() == m.Stack()[..|m.Stack()| - 1];
  }

  /** Consecutive references from `lo`: the nodes a run of `n` reads allocates. */
  function Span(lo: nat, n: nat): (s: seq<Ref>)
    ensures |s| == n && forall i :: 0 <= i < n ==> s[i] == lo + i
  {
    seq(n, i => lo + i)
  }

  lemma SpanSplit(lo: nat, a: nat, b: nat)
    ensures Span(lo, a + b) == Span(lo, a) + Span(lo + a, b)
  {
  }

  lemma SpanEmpty(s: seq<Ref>, lo: nat)
    ensures s + Span(lo, 0) == s
  {
    assert Span(lo, 0) == [];
  }

  lemma StackAfterOneLess(s: seq<Ref>, s1: seq<Ref>, s2: seq<Ref>, lo: nat, lo1: nat, k: nat)
    requires k > 0 && lo1 == lo + 1 && s1 == s + [lo] && s2 == s1 + Span(lo1, k - 1)
    ensures s2 == s + Span(lo, k)
  {
    SpanSplit(lo, 1, k - 1);
    assert Span(lo, 1) == [lo];
  }

  /** No token among the first `k` is a symbol. */
  predicate LiteralsFirst(ns: seq<Node>, k: nat)
    decreases k
  {
    k <= |ns| && (k == 0 || (ns[0].kind != Sym && LiteralsFirst(ns[1..], k - 1)))
  }

  /** The recursive reading of `LiteralsFirst` agrees with the position-wise one. */
  lemma {:induction false} LiteralsFirstMeans(ns: seq<Node>, k: nat)
    ensures LiteralsFirst(ns, k) <==> k <= |ns| && forall i :: 0 <= i < k ==> ns[i].kind != Sym
    decreases k
  {
    if 0 < k <= |ns| {
      LiteralsFirstMeans(ns[1..], k - 1);
      assert forall i :: 1 <= i < k ==> ns[i] == ns[1..][i - 1];
    }
  }

  /** A cycle that ends normally hands over to the next iteration of the loop. */
  lemma LoopContinues(m: Machine)
    requires m.Valid() && |m.input| > 0 && Dispatch(Word(m).0).Ok?
    ensures Loop(m) == Loop(Dispatch(Word(m).0).m)
  {
  }

  /** One literal: the loop goes on from the state `WORD` leaves. */
  lemma LiteralStep(m: Machine)
    requires m.Valid() && |m.input| > 0 && m.input[0].kind != Sym
    ensures Loop(m) == Loop(Word(m).0)
  {
    LiteralCycle(m);
    LoopContinues(m);
  }

  /** The state after `WORD` has run `k` times: the next `k` tokens are read and pushed. */
  function ReadTokens(m: Machine, k: nat): (next: Machine)
    requires m.Valid() && k <= |m.input|
    ensures next.Valid() && Grows(m, next) && next.input == m.input[k..]
    decreases k
  {
    if k == 0 then m
    else
      var next := ReadTokens(Word(m).0, k - 1);
      GrowsTransitive(m, Word(m).0, next);
      next
  }

  /**
    What `k` reads do, from `m` to `next`: they add exactly the next `k` tokens' nodes, in
    order, on fresh indices, and push them in that order.
   */
  predicate ReadShape(m: Machine, next: Machine, k: nat) {
    && m.vm < |m.heap| && next.vm < |next.heap| && k <= |m.input|
    && |next.heap| == |m.heap| + k
    && (forall i :: 0 <= i < k ==> next.heap[|m.heap| + i] == m.input[i])
    && next.Stack() == m.Stack() + Span(|m.heap|, k)
  }

  /** Reading is self-quoting: `k` reads have the shape `ReadShape` describes. */
  lemma {:induction false} ReadTokensShape(m: Machine, k: nat)
    requires m.Valid() && k <= |m.input|
    ensures ReadShape(m, ReadTokens(m, k), k)
    decreases k
  {
    if k == 0 {
      SpanEmpty(m.Stack(), |m.heap|);
    } else {
      var m1 := Word(m).0;
      ReadTokensShape(m1, k - 1);
      ReadOneThenRest(m, m1, ReadTokens(m1, k - 1), k);
    }
  }

  /** One read, then `k - 1` more: the shape of the first read extends that of the rest. */
  lemma ReadOneThenRest(m: Machine, m1: Machine, next: Machine, k: nat)
    requires 0 < k <= |m.input| && m.Valid() && m1.Valid() && next.Valid()
    requires m1.input == m.input[1..] && Grows(m, m1) && Grows(m1, next)
    requires |m1.heap| == |m.heap| + 1 && m1.heap[|m.heap|] == m.input[0] && m1.Stack() == m.Stack() + [|m.heap|]
    requires ReadShape(m1, next, k - 1)
    ensures ReadShape(m, next, k)
  {
    ShiftedNodes(m, m1, next, k);
    StackAfterOneLess(m.Stack(), m1.Stack(), next.Stack(), |m.heap|, |m1.heap|, k);
  }

  lemma ShiftedNodes(m: Machine, m1: Machine, next: Machine, k: nat)
    requires 0 < k <= |m.input| && m.Valid() && m1.Valid() && next.Valid()
    requires |m1.heap| == |m.heap| + 1 && m1.input == m.input[1..] && Grows(m1, next) && m1.vm == m.vm
    requires m1.heap[|m.heap|] == m.input[0]
    requires |next.heap| == |m1.heap| + k - 1
    requires forall i :: 0 <= i < k - 1 ==> next.heap[|m1.heap| + i] == m1.input[i]
    ensures forall i :: 0 <= i < k ==> next.heap[|m.heap| + i] == m.input[i]
  {
    forall i | 0 <= i < k ensures next.heap[|m.heap| + i] == m.input[i] {
      if i > 0 {
        assert next.heap[|m1.heap| + (i - 1)] == m1.input[i - 1];
      } else {
        assert |m.heap| != m1.vm;
      }
    }
  }

  /** Literal tokens never end the loop: it goes on from the state their reads leave. */
  lemma {:induction false} LoopLiterals(m: Machine, k: nat)
    requires m.Valid() && LiteralsFirst(m.input, k)
    ensures Loop(m) == Loop(ReadTokens(m, k))
    decreases k
  {
    if k == 0 {
      assert ReadTokens(m, 0) == m;
    } else {
      LiteralsAfterWord(m, k);
      LoopLiterals(Word(m).0, k - 1);
      LiteralThenRest(m, k);
    }
  }

  lemma LiteralsAfterWord(m: Machine, k: nat)
    requires m.Valid() && LiteralsFirst(m.input, k) && k > 0
    ensures LiteralsFirst(Word(m).0.input, k - 1)
  {
    assert Word(m).0.input == m.input[1..];
  }

  lemma LiteralThenRest(m: Machine, k: nat)
    requires m.Valid() && 0 < k <= |m.input| && m.input[0].kind != Sym
    requires Loop(Word(m).0) == Loop(ReadTokens(Word(m).0, k - 1))
    ensures Loop(m) == Loop(ReadTokens(m, k))
  {
    LiteralStep(m);
    assert ReadTokens(m, k) == ReadTokens(Word(m).0, k - 1);
  }

  /** Input made only of literals runs to the end with every token read and pushed. */
  lemma AllLiterals(m: Machine)
    requires m.Valid() && LiteralsFirst(m.input, |m.input|)
    ensures Loop(m) == Ok(ReadTokens(m, |m.input|))
  {
    LoopLiterals(m, |m.input|);
  }

  /**
    A run aborted by an unresolved symbol keeps every effect before it: the literals
    read so far and the symbol itself stay on the stack.
   */
  lemma {:induction false} UnresolvedKeepsEarlierEffects(m: Machine, k: nat)
    requires m.Valid() && LiteralsFirst(m.input, k) && k < |m.input|
    requires m.input[k].kind == Sym && m.input[k].val !in m.Vocabulary()
    ensures Loop(m) == Failed(Unresolved(m.input[k].val), ReadTokens(m, k + 1))
    decreases k
  {
    if k == 0 {
      UnresolvedCycle(m);
      assert ReadTokens(m, 1) == ReadTokens(Word(m).0, 0);
    } else {
      UnresolvedAfterWord(m, k);
      UnresolvedKeepsEarlierEffects(Word(m).0, k - 1);
      LiteralThenUnresolved(m, k);
    }
  }

  lemma UnresolvedAfterWord(m: Machine, k: nat)
    requires m.Valid() && LiteralsFirst(m.input, k) && 0 < k < |m.input|
    requires m.input[k].kind == Sym && m.input[k].val !in m.Vocabulary()
    ensures var m1 := Word(m).0;
      && LiteralsFirst(m1.input, k - 1) && k - 1 < |m1.input| && m1.input[k - 1] == m.input[k]
      && m1.Vocabulary() == m.Vocabulary()
  {
  }

  lemma LiteralThenUnresolved(m: Machine, k: nat)
    requires m.Valid() && 0 < k < |m.input| && m.input[0].kind != Sym
    requires Loop(Word(m).0) == Failed(Unresolved(m.input[k].val), ReadTokens(Word(m).0, k))
    ensures Loop(m) == Failed(Unresolved(m.input[k].val), ReadTokens(m, k + 1))
  {
    LiteralStep(m);
    assert ReadTokens(m, k + 1) == ReadTokens(Word(m).0, k);
  }

  /** The back-tick bound to `WORD` pushes the following token unevaluated and the run goes on after it. */
  lemma QuoteCycle(m: Machine)
    requires m.Valid() && |m.input| >= 2 && m.input[0].kind == Sym && m.input[0].val == Text("`")
    requires Text("`") in m.Vocabulary() && m.heap[m.Vocabulary()[Text("`")]].kind == Cmd(WORD)
    ensures Dispatch(Word(m).0).Ok?
    ensures var m2 := Dispatch(Word(m).0).m;
      && m2.Valid() && m2.input == m.input[2..] && Grows(m, m2)
      && |m2.heap| == |m.heap| + 2
      && m2.heap[|m.heap| + 1] == m.input[1]
      && m2.Stack() == m.Stack() + [|m.heap| + 1]
  {
    var m1 := Machine(m.heap + [m.input[0]], m.vm, m.input[1..]);
    CommandCycle(m, WORD);
    QuoteReads(m, m1);
  }

  /** After the back-tick is consumed, `WORD` reads the next token onto the stack. */
  lemma QuoteReads(m: Machine, m1: Machine)
    requires m.Valid() && |m.input| >= 2 && m1 == Machine(m.heap + [m.input[0]], m.vm, m.input[1..])
    ensures m1.Valid()
    ensures var m2 := Word(m1).0;
      && m2.input == m.input[2..] && Grows(m, m2)
      && |m2.heap| == |m.heap| + 2
      && m2.heap[|m.heap| + 1] == m.input[1]
      && m2.Stack() == m.Stack() + [|m.heap| + 1]
  {
    assert Alloc(m.heap, m.input[0]).0 == m1.heap;
    assert m1.Stack() == m.Stack() && Grows(m, m1);
    assert m.input[1..][1..] == m.input[2..];
    GrowsTransitive(m, m1, Word(m1).0);
  }

  /**
    A back-tick followed by literals only: the quoted token and every literal after it end
    on the stack in input order, each on its own fresh node, and the run ends normally.
   */
  lemma QuoteThenLiterals(m: Machine)
    requires m.Valid() && |m.input| >= 2 && m.input[0].kind == Sym && m.input[0].val == Text("`")
    requires Text("`") in m.Vocabulary() && m.heap[m.Vocabulary()[Text("`")]].kind == Cmd(WORD)
    requires LiteralsFirst(m.input[2..], |m.input| - 2)
    ensures Loop(m).Ok?
    ensures var next := Loop(m).m;
      && |next.heap| == |m.heap| + |m.input|
      && next.Stack() == m.Stack() + Span(|m.heap| + 1, |m.input| - 1)
      && forall i :: 1 <= i < |m.input| ==> next.heap[|m.heap| + i] == m.input[i]
  {
    QuoteCycle(m);
    LoopContinues(m);
    QuotedThenRead(m, Dispatch(Word(m).0).m);
  }

  /** The literals after the quoted token are read in order and the run ends. */
  lemma QuotedThenRead(m: Machine, m2: Machine)
    requires m.Valid() && |m.input| >= 2 && LiteralsFirst(m.input[2..], |m.input| - 2)
    requires m2.Valid() && m2.input == m.input[2..] && Grows(m, m2) && |m2.heap| == |m.heap| + 2
    requires m2.heap[|m.heap| + 1] == m.input[1] && m2.Stack() == m.Stack() + [|m.heap| + 1]
    ensures Loop(m2).Ok?
    ensures var next := Loop(m2).m;
      && |next.heap| == |m.heap| + |m.input|
      && next.Stack() == m.Stack() + Span(|m.heap| + 1, |m.input| - 1)
      && forall i :: 1 <= i < |m.input| ==> next.heap[|m.heap| + i] == m.input[i]
  {
    AllLiterals(m2);
    ReadTokensShape(m2, |m2.input|);
    ReadAfterQuote(m, m2, ReadTokens(m2, |m2.input|));
  }

  /** The reads after the quoted token append their nodes and references right after it. */
  lemma ReadAfterQuote(m: Machine, m2: Machine, next: Machine)
    requires m.vm < |m.heap| && m2.vm < |m2.heap| && next.vm < |next.heap| && m2.vm == m.vm
    requires |m.input| >= 2 && m2.input == m.input[2..] && |m2.heap| == |m.heap| + 2
    requires m2.heap[|m.heap| + 1] == m.input[1] && m2.Stack() == m.Stack() + [|m.heap| + 1]
    requires Grows(m2, next) && ReadShape(m2, next, |m2.input|)
    ensures |next.heap| == |m.heap| + |m.input|
    ensures next.Stack() == m.Stack() + Span(|m.heap| + 1, |m.input| - 1)
    ensures forall i :: 1 <= i < |m.input| ==> next.heap[|m.heap| + i] == m.input[i]
  {
    StackAfterOneLess(m.Stack(), m2.Stack(), next.Stack(), |m.heap| + 1, |m2.heap|, |m2.input| + 1);
    assert next.heap[|m.heap| + 1] == m.input[1] by {
      assert |m.heap| + 1 != m.vm;
    }
    QuotedNodes(next.heap, |m.heap|, |m2.heap|, m.input, m2.input);
  }

  lemma QuotedNodes(h: Heap, lo: nat, lo2: nat, input: seq<Node>, rest: seq<Node>)
    requires 2 <= |input| && rest == input[2..] && lo2 == lo + 2 && |h| == lo + |input|
    requires h[lo + 1] == input[1]
    requires forall j :: 0 <= j < |rest| ==> h[lo2 + j] == rest[j]
    ensures forall i :: 1 <= i < |input| ==> h[lo + i] == input[i]
  {
    forall i | 1 <= i < |input| ensures h[lo + i] == input[i] {
      if i > 1 {
        assert h[lo2 + (i - 2)] == rest[i - 2];
      }
    }
  }

  /**
    `M(text)` on a source that lexes: the source string is pushed, popped again and left
    behind in the arena, and the loop runs over the tokens' nodes from the stack as it was.
   */
  lemma EvaluateRuns(m: Machine, text: string, ts: seq<Token>)
    requires m.Valid() && Lex(text) == Success(ts)
    ensures forall i :: 0 <= i < |ts| ==> InRuleLanguage(ts[i])
    ensures Evaluate(m, text) == Loop(Machine(m.heap + [NewNode(Str, Text(text))], m.vm, LexedNodes(ts)))
  {
    var (h, s) := Alloc(m.heap, NewNode(Str, Text(text)));
    var m1 := Push(m.(heap := h), s);
    var (m2, src) := PopTop(m1.(input := []));
    assert m2.heap == m.heap + [NewNode(Str, Text(text))];
  }

  /**
    `M(text)` on a source that is a single name bound to a frame without `eval`: the run
    raises `AttributeError` for that frame's class and leaves the stack as it was.
   */
  lemma EvaluateNoEval(m: Machine, text: string, name: string)
    requires m.Valid() && Lex(text) == Success([Token(SymRule, name)])
    requires Text(name) in m.Vocabulary()
    requires !IsPrim(m.heap[m.Vocabulary()[Text(name)]].kind) && !m.heap[m.Vocabulary()[Text(name)]].kind.Cmd?
    ensures Evaluate(m, text).Failed?
    ensures Evaluate(m, text).fault == NoEval(m.heap[m.Vocabulary()[Text(name)]].kind)
    ensures Evaluate(m, text).m.Stack() == m.Stack()
  {
    var ts := [Token(SymRule, name)];
    EvaluateRuns(m, text, ts);
    var (h, _) := Alloc(m.heap, NewNode(Str, Text(text)));
    var m1 := Machine(h, m.vm, LexedNodes(ts));
    assert m1.input[0] == NewNode(Sym, Text(name));
    assert m1.heap[m1.vm] == m.heap[m.vm];
    assert m1.heap[m.Vocabulary()[Text(name)]] == m.heap[m.Vocabulary()[Text(name)]];
    NoEvalCycle(m1);
  }
}
