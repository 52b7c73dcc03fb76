/**
  Marvin Minsky's extended frame: the one node shape of the system. A node has a type
  tag fixed at construction, a scalar `val`, a `slot` map of named children kept in
  insertion order, and an ordered `nest` list that serves as AST children, vector or
  stack. Nodes live in an arena and refer to each other by index, so the graph may
  contain cycles (the virtual machine binds itself under `vm`).
 */
module Frames {
  import opened Wrappers

  /** Index of a node in the arena. */
  type Ref = nat

  /** The native functions the built-in vocabulary wraps as commands. */
  datatype Builtin = WORD | DOT | Q | QQ | BYE

  /** The function name a command node displays as its `val`. */
  function BuiltinName(f: Builtin): string {
    match f
    case WORD => "WORD"
    case DOT => "DOT"
    case Q => "Q"
    case QQ => "QQ"
    case BYE => "BYE"
  }

  /** The class a node was built from; a command also carries the function it wraps. */
  datatype Kind =
    | Frame | Sym | Str | Num | Int | Hex | Bin
    | Cont | Vector | Stack | Queue | Dict | Set
    | Active | Cmd(fn: Builtin) | VM | Seq

  /** The `type` tag: the class name in lower case. */
  function TypeTag(k: Kind): string {
    match k
    case Frame => "frame"
    case Sym => "sym"
    case Str => "str"
    case Num => "num"
    case Int => "int"
    case Hex => "hex"
    case Bin => "bin"
    case Cont => "cont"
    case Vector => "vector"
    case Stack => "stack"
    case Queue => "queue"
    case Dict => "dict"
    case Set => "set"
    case Active => "active"
    case Cmd(_) => "cmd"
    case VM => "vm"
    case Seq => "seq"
  }

  /** The primitive classes, the ones whose `eval` pushes the node itself. */
  predicate IsPrim(k: Kind) {
    k.Sym? || k.Str? || k.Num? || k.Int? || k.Hex? || k.Bin?
  }

  /**
    The scalar `val`: text (names, symbols, strings), an exact integer, or a
    floating-point number kept as the literal text it was read from.
   */
  datatype Scalar = Text(s: string) | Integer(i: int) | Real(lexeme: string)

  /** Why a frame operation raised: `KeyError` or `IndexError`. */
  datatype FrameError = KeyNotFound(key: Scalar) | IndexOutOfRange

  datatype Node = Node(kind: Kind, val: Scalar, slot: map<Scalar, Ref>, keys: seq<Scalar>, nest: seq<Ref>) {

    /** All references stay below `bound`; `keys` lists the slot names once each, in insertion order. */
    predicate Valid(bound: nat) {
      && (forall k :: k in slot ==> slot[k] < bound)
      && (forall i :: 0 <= i < |nest| ==> nest[i] < bound)
      && (forall k :: k in slot ==> k in keys)
      && (forall i :: 0 <= i < |keys| ==> keys[i] in slot)
      && (forall i, j :: 0 <= i < j < |keys| ==> keys[i] != keys[j])
    }

    /** `A[key]`: the slot bound under `key`, or `KeyError`. */
    function Get(key: Scalar): (r: Result<Ref, FrameError>)
      ensures r.Success? <==> key in slot
      ensures r.Success? ==> r.value == slot[key]
      ensures r.Failure? ==> r.error == KeyNotFound(key)
    {
      if key in slot then Success(slot[key]) else Failure(KeyNotFound(key))
    }

    /** `A[key] = B`: binds `key`; a new key goes last in slot order, a rebound key keeps its place. */
    function SetSlot(key: Scalar, b: Ref): (n: Node)
      ensures n.Get(key) == Success(b)
      ensures forall k :: k != key ==> n.Get(k) == Get(k)
      ensures n.kind == kind && n.val == val && n.nest == nest
      ensures key in slot ==> n.keys == keys
      ensures key !in slot ==> n.keys == keys + [key]
      ensures forall bound: nat :: Valid(bound) && b < bound ==> n.Valid(bound)
    {
      Node(kind, val, slot[key := b], if key in slot then keys else keys + [key], nest)
    }

    /** `A // B`: appends `b` at the end of `nest`. */
    function Append(b: Ref): (n: Node)
      ensures n.nest == nest + [b] && |n.nest| == |nest| + 1 && n.nest[|nest|] == b
      ensures n.kind == kind && n.val == val && n.slot == slot && n.keys == keys
    {
      this.(nest := nest + [b])
    }

    /** `pop`: removes and returns the last `nest` element, or `IndexError` when `nest` is empty. */
    function Pop(): (r: Result<(Ref, Node), FrameError>)
      ensures r.Failure? <==> |nest| == 0
      ensures r.Failure? ==> r.error == IndexOutOfRange
      ensures r.Success? ==> r.value.0 == nest[|nest| - 1] && r.value.1.nest == nest[..|nest| - 1]
      ensures r.Success? ==> r.value.1.Append(r.value.0) == this
    {
      if |nest| == 0 then Failure(IndexOutOfRange)
      else Success((nest[|nest| - 1], this.(nest := nest[..|nest| - 1])))
    }

    /** `pip`: removes and returns the second-to-last `nest` element, or `IndexError` below two. */
    function Pip(): (r: Result<(Ref, Node), FrameError>)
      ensures r.Failure? <==> |nest| < 2
      ensures r.Failure? ==> r.error == IndexOutOfRange
      ensures r.Success? ==> r.value.0 == nest[|nest| - 2]
      ensures r.Success? ==> |r.value.1.nest| == |nest| - 1
      ensures r.Success? ==> r.value.1.nest[..|nest| - 2] + [r.value.0] + r.value.1.nest[|nest| - 2..] == nest
      ensures r.Success? ==> r.value.1.slot == slot && r.value.1.keys == keys && r.value.1.kind == kind && r.value.1.val == val
    {
      if |nest| < 2 then Failure(IndexOutOfRange)
      else Success((nest[|nest| - 2], this.(nest := nest[..|nest| - 2] + [nest[|nest| - 1]])))
    }

    /** `top`: the last `nest` element, `nest` unchanged; `IndexError` when empty. */
    function Top(): (r: Result<Ref, FrameError>)
      ensures r.Failure? <==> |nest| == 0
      ensures r.Failure? ==> r.error == IndexOutOfRange
      ensures r.Success? ==> r.value == nest[|nest| - 1]
    {
      if |nest| == 0 then Failure(IndexOutOfRange) else Success(nest[|nest| - 1])
    }

    /** `tip`: the second-to-last `nest` element, `nest` unchanged; `IndexError` below two. */
    function Tip(): (r: Result<Ref, FrameError>)
      ensures r.Failure? <==> |nest| < 2
      ensures r.Failure? ==> r.error == IndexOutOfRange
      ensures r.Success? ==> r.value == nest[|nest| - 2]
    {
      if |nest| < 2 then Failure(IndexOutOfRange) else Success(nest[|nest| - 2])
    }

    /** `dropall`: empties `nest` and keeps everything else. */
    function DropAll(): (n: Node)
      ensures n.nest == [] && n.kind == kind && n.val == val && n.slot == slot && n.keys == keys
    {
      this.(nest := [])
    }
  }

  /** `Frame.__init__`: a node of the given class and value with no slots and no children. */
  function NewNode(kind: Kind, val: Scalar): (n: Node)
    ensures n.kind == kind && n.val == val && n.slot == map[] && n.keys == [] && n.nest == []
    ensures forall bound: nat :: n.Valid(bound)
  {
    Node(kind, val, map[], [], [])
  }

  /** The arena: node `i` is `h[i]`. */
  type Heap = seq<Node>

  /** Every reference held by every node points into the arena. */
  predicate WellFormed(h: Heap) {
    forall i :: 0 <= i < |h| ==> h[i].Valid(|h|)
  }

  /** Adds a node at the first free index. */
  function Alloc(h: Heap, n: Node): (r: (Heap, Ref))
    requires WellFormed(h) && n.Valid(|h| + 1)
    ensures r.1 == |h| && r.0 == h + [n]
    ensures WellFormed(r.0)
  {
    assert forall i :: 0 <= i < |h| ==> h[i].Valid(|h| + 1) by {
      forall i | 0 <= i < |h| ensures h[i].Valid(|h| + 1) {
        assert h[i].Valid(|h|);
      }
    }
    (h + [n], |h|)
  }

  /** `A[key] = B` on the arena: only node `a` changes. */
  function SetItem(h: Heap, a: Ref, key: Scalar, b: Ref): (updated: Heap)
    requires WellFormed(h) && a < |h| && b < |h|
    ensures WellFormed(updated) && |updated| == |h|
    ensures updated[a] == h[a].SetSlot(key, b)
    ensures forall i :: 0 <= i < |h| && i != a ==> updated[i] == h[i]
  {
    h[a := h[a].SetSlot(key, b)]
  }

  /** `A << B`: binds `B` in `A` under `B`'s own value. */
  function Bind(h: Heap, a: Ref, b: Ref): (updated: Heap)
    requires WellFormed(h) && a < |h| && b < |h|
    ensures WellFormed(updated) && |updated| == |h|
    ensures updated[a].Get(h[b].val) == Success(b)
    ensures forall k :: k != h[b].val ==> updated[a].Get(k) == h[a].Get(k)
    ensures updated[a].nest == h[a].nest && updated[a].kind == h[a].kind && updated[a].val == h[a].val
    ensures updated[a].keys == if h[b].val in h[a].slot then h[a].keys else h[a].keys + [h[b].val]
    ensures forall i :: 0 <= i < |h| && i != a ==> updated[i] == h[i]
  {
    SetItem(h, a, h[b].val, b)
  }

  /** `A // B` on the arena: only node `a` changes. */
  function Push(h: Heap, a: Ref, b: Ref): (updated: Heap)
    requires WellFormed(h) && a < |h| && b < |h|
    ensures WellFormed(updated) && |updated| == |h|
    ensures updated[a] == h[a].Append(b)
    ensures forall i :: 0 <= i < |h| && i != a ==> updated[i] == h[i]
  {
    h[a := h[a].Append(b)]
  }

  /** Popping right after appending gives back the appended reference and the node as it was. */
  lemma PopAfterAppend(n: Node, b: Ref)
    ensures n.Append(b).Pop() == Success((b, n))
  {
    assert (n.nest + [b])[..|n.nest|] == n.nest;
  }

  /** `top` and `tip` answer exactly what `pop` and `pip` would remove, and fail exactly when they do. */
  lemma PeekAgreesWithRemove(n: Node)
    ensures n.Top().Success? <==> n.Pop().Success?
    ensures n.Top().Success? ==> n.Top().value == n.Pop().value.0
    ensures n.Tip().Success? <==> n.Pip().Success?
    ensures n.Tip().Success? ==> n.Tip().value == n.Pip().value.0
  {
  }
}
