# metaL interpreter core in Dafny

A model of the core of `metaL.py`, a small FORTH-like interpreter built on
Marvin Minsky's extended frames, with proofs about it.

- **Frames** (`frames.dfy`). Every object is a node: a class tag, a scalar
  `val`, a `slot` map and an ordered `nest` list. Nodes live in an arena
  (`seq<Node>`) and refer to each other by index, so the deliberate cycle
  `vm['vm'] = vm` is just an index. The operators `A[key]`, `A[key] = B`,
  `A << B` and `A // B` are modelled, and so are the stack words `pop`, `pip`,
  `top`, `tip` and `dropall`. Python's `KeyError` and `IndexError` become a
  `Result` failure.
- **Dump** (`dump.dfy`). The test-mode tree printer `dump`/`head`/`_pad`/`_val`.
  The list of already printed nodes is threaded through the calls and reset at
  depth 0, as `Frame._dumped` is. A node met again prints its header and ` _/`.
  The function's `decreases` clause (the nodes not yet printed) is the proof
  that the dump ends on every graph, cyclic ones included.
- **Numerals and primitives** (`numerals.dfy`, `prims.dfy`).
  - `int(V)`, `int(V[2:], 16)` and `int(V[2:], 2)` on literal text.
  - `str`, `hex` and `bin` of an integer.
  - The node each lexer rule builds.
- **Lexer** (`lexer.dfy`, `words.dfy`). The PLY rules as a hand-written
  first-match scanner.
  - The function rules are tried in file order: hex, bin, num, num_exp, int,
    sym. The comment rule comes after them.
  - Blanks are skipped.
  - `Lex` is the reference definition. `Scan` is a loop that computes the same
    result.
- **Interpreter** (`interp.dfy`).
  - `WORD`, `FIND`, `EVAL`, `INTERP` and `M`.
  - The `VM` setters that wrap a function as a `Cmd`.
  - The built-in vocabulary bound at start-up.
  - A run ends as `Ok`, `Halted` (`BYE` and `??` call `sys.exit`) or
    `Failed`. Every outcome keeps the machine state reached, because effects
    are never rolled back.
- **Scenarios** (`scenarios.dfy`, `frame_dumps.dfy`). The expectations of the
  repository's test module, worked through the model.

Floating point is not modelled. A `Num` keeps the literal it was read from.
Wherever Python would print the float, the dump calls a caller-supplied
function `showFloat`.

Three behaviours of `metaL.py` are worth stating up front:
- **Rule order.** The lexer is first-match: the first rule in file order whose
  pattern matches at the current position wins, however long a later rule's
  match would be. So `1e5` is `Int 1` followed by `Sym e5` (`Scenarios.LexOneE5`).
- **Self-binding.** The machine is bound in its own vocabulary under the key
  `vm`, not under its name `metaL`.
- **Lexing errors.** `t_error` cannot fire: every character that is not
  skipped starts at least a one-character `Sym` (`LexTotal`).

## Model

| member | source | states |
|---|---|---|
| `Frames.Node.Get` | metaL.py:61-62 | `A[key]` succeeds exactly when `key` is bound and then returns the bound node; otherwise it fails with `KeyError(key)` |
| `Frames.Node.SetSlot` | metaL.py:64-65 | after `A[key] = B`, `key` gives `B`; every other key gives what it gave before; type, value and `nest` are kept; a new key goes last in slot order, a rebound one keeps its place; references stay valid |
| `Frames.SetItem` | metaL.py:64-65 | `A[key] = B` in the arena changes node `A` only, and the arena stays well formed |
| `Frames.Bind` | metaL.py:67-68 | `A << B` makes `A[B.val]` return `B`, leaves every other key, `A`'s type, value and `nest`, and every other node unchanged; a new key goes last in slot order, a rebound one keeps its place |
| `Frames.Push` | metaL.py:70-71 | `A // B` appends `B` at the end of `A.nest`, keeps `A`'s slots, type and value, and changes no other node |
| `Frames.Node.Append` | metaL.py:70-71 | the new `nest` is the old one with `B` added last; slots, type and value are kept |
| `Frames.Node.Pop` | metaL.py:78-79 | `pop` fails with `IndexError` exactly on an empty `nest`; otherwise it returns the last element and a node without it, and appending that element gives back the original node |
| `Frames.Node.Pip` | metaL.py:81-82 | `pip` fails exactly when `nest` has fewer than two elements; otherwise it returns the second-to-last element, putting it back in its place gives the original `nest`, and slots, slot order, type and value are kept |
| `Frames.Node.Top` | metaL.py:84-85 | `top` fails exactly on an empty `nest` and otherwise returns the last element |
| `Frames.Node.Tip` | metaL.py:87-88 | `tip` fails exactly below two elements and otherwise returns the second-to-last |
| `Frames.Node.DropAll` | metaL.py:90-91 | `dropall` empties `nest` and keeps slots, type and value |
| `Frames.NewNode` | metaL.py:7-17 | a new frame has the given class and value, no slots and an empty `nest`, so it is valid in any arena |
| `Frames.PopAfterAppend` | metaL.py:70-79 | `pop` right after `// B` returns `B` and the node as it was before the push |
| `Frames.PeekAgreesWithRemove` | metaL.py:78-88 | `top`/`tip` succeed exactly when `pop`/`pip` do, and return the element those would remove |
| `Dump.ScalarTextReads` | metaL.py:53-54 | `'%s' % val` of an integer is a literal the int rule accepts and reads back as the integer; a string prints as itself; a float prints as `showFloat` of its literal |
| `Dump.ValTextPlain` | metaL.py:53-54 | every class except `Hex` and `Bin` prints its value with `'%s'`, so an integer value reads back as itself |
| `Dump.ValTextHex` | metaL.py:125-126 | a `Hex` node prints `hex(val)`: for `val >= 0`, `0x` and hex digits that read back as `val`; for `val < 0`, a minus sign before `hex(-val)` |
| `Dump.ValTextBin` | metaL.py:132-133 | a `Bin` node prints `bin(val)`: for `val >= 0`, `0b` and binary digits that read back as `val`; for `val < 0`, a minus sign before `bin(-val)` |
| `Dump.HeadShape` | metaL.py:45-48 | `head(prefix)` in test mode is the prefix, then `<`, the class tag, `:`, the printed value, and `>` |
| `Dump.Pad` | metaL.py:50-51 | `_pad(depth)` is a newline followed by `depth` tabs |
| `Dump.SlotChildren` | metaL.py:35-37 | at most one child per key, each a node bound in the slot map; when every key is bound, exactly one child per key in key order, prefixed `key = ` and referring to the node bound under it |
| `Dump.NestChildren` | metaL.py:39-41 | one child per `nest` element, in order, with an empty prefix |
| `Dump.ChildrenInArena` | metaL.py:34-41 | every child a node prints refers to a node of the arena |
| `Dump.DumpNode` | metaL.py:27-43 | the dump starts with the header line; the node ends up marked; a node already printed (below depth 0) prints its header and ` _/` and changes no marks; the marks only grow below depth 0 |
| `Dump.DumpList` | metaL.py:36-41 | printing a run of children only adds marks, and every child printed ends up marked |
| `Dump.Test` | metaL.py:96-97 | `test(voc)` begins with the node's header on its own line |
| `Dump.DumpListAllSeen` | metaL.py:31-33 | children all printed before give only their headers with ` _/`, and no new marks |
| `Dump.DumpLeaf` | metaL.py:27-43 | a node with nothing below it prints as its header line alone, and becomes marked |
| `Dump.DumpSelfBound` | metaL.py:31-33 | a node bound under its own only slot prints once in full and once as a back-reference, so the self-cycle dumps finitely |
| `Dump.LeafLinesIndented` | metaL.py:29-41 | children that print as single lines give their headers, one per indented line |
| `Dump.LeafLinesTwo` | metaL.py:36-41 | two leaf children print as two lines, in order |
| `Dump.DumpListLeaves` | metaL.py:31-41 | distinct leaf children not printed before each print as their header line |
| `Dump.DumpRoot` | metaL.py:27-43 | the whole dump is the header, then the children at depth 1 with only the root marked |
| `Dump.DumpFlat` | metaL.py:27-43 | a node whose children are distinct leaves other than itself prints its header and one line per child, slots first and then `nest` |
| `Numerals.DigitValue` | metaL.py:124 | a digit's value is below 16; it is below 10 exactly for decimal digits and below 2 exactly for binary digits |
| `Numerals.ParseLeadingZero` | metaL.py:119 | a leading zero digit does not change the value `int()` reads |
| `Numerals.ParseSigned` | metaL.py:117-119 | `int(V)` of an int literal is at most 0 after a minus sign and at least 0 otherwise, and after a sign comes an unsigned digit run |
| `Numerals.DigitChar` | metaL.py:126 | the digit Python prints for a value is a lower-case hex digit that reads back as that value |
| `Numerals.Render` | metaL.py:125-133 | the digits of a number in a base are non-empty, lower case, all digits of the base, without a leading zero |
| `Numerals.ParseRender` | metaL.py:121-133 | parsing the rendered digits gives the number back |
| `Numerals.DecimalRoundTrip` | metaL.py:117-119 | `Decimal`, the model of `str(i)`, gives for every integer `i` a literal that the `int` rule accepts and `int()` reads back as `i` |
| `Numerals.HexRoundTrip` | metaL.py:122-126 | `HexDisplay`, the model of `hex(n)`, is `0x` followed by hex digits that `int(V[2:], 16)` reads back as `n` |
| `Numerals.BinRoundTrip` | metaL.py:129-133 | `BinDisplay`, the model of `bin(n)`, is `0b` followed by binary digits that `int(V[2:], 2)` reads back as `n` |
| `Lexer.MatchHex` | metaL.py:213-215 | the hex rule fires exactly at `0x` followed by a hex digit; it reads `0x` and every hex digit that follows, and no longer prefix is a hex literal |
| `Lexer.MatchBin` | metaL.py:217-219 | the bin rule fires exactly at `0b` followed by a binary digit; it reads `0b` and every binary digit that follows, and no longer prefix is a bin literal |
| `Lexer.MatchNum` | metaL.py:221-223 | the num rule fires exactly where a signed integer is followed by a dot; what it reads is a num literal and no longer prefix is one |
| `Lexer.MatchNumExp` | metaL.py:225-227 | the num_exp rule fires exactly where a signed integer is followed by `e`/`E`, a sign and a digit; what it reads is a num_exp literal and no longer prefix is one |
| `Lexer.MatchInt` | metaL.py:229-231 | the int rule reads a signed integer greedily up to the first non-digit, always matches at a digit, and no longer prefix is an int literal |
| `Lexer.MatchSym` | metaL.py:233-235 | the sym rule reads a back-tick alone, or else the whole run of non-blank, non-comment characters, and no longer prefix is a sym literal; it always matches at such a character |
| `Lexer.ExpLen` | metaL.py:222-226 | the exponent part `[eE][+\-][0-9]+` is found exactly at `e`/`E`, a sign and a digit, and is read with all its digits |
| `Lexer.IntMatchExact` | metaL.py:229-231 | an int literal that the next character cannot extend is exactly what the int rule reads |
| `Lexer.CommentLen` | metaL.py:211 | the comment rule matches exactly at `#` or `\` |
| `Lexer.Match` | metaL.py:210-237 | an emitted token is non-empty and in its rule's language; a skip is exactly the comment at `#` or `\` |
| `Lexer.MatchFirstWins` | metaL.py:210-237 | the rule that emits is preceded in file order only by rules that match no prefix at all; it reads the longest prefix of its language, a back-tick excepted; a skip or a failure happens only where no token rule matches |
| `Lexer.Lex` | metaL.py:210-237 | every token produced belongs to the language of the rule that produced it |
| `Lexer.MatchTotal` | metaL.py:233-237 | at a character that is not skipped, some rule matches |
| `Lexer.LexTotal` | metaL.py:237 | `t_error` is unreachable: every input tokenizes |
| `Lexer.LexKeepsText` | metaL.py:210-236 | the token texts joined are the input with blanks and comments removed |
| `Lexer.InRuleLanguageVisible` | metaL.py:213-235 | every token text is made of characters the sym rule could also read |
| `Lexer.MatchPriority` | metaL.py:213-235 | the rule chosen at a position obeys the rule order: a `sym` token never starts with a digit, and a back-tick is a token of its own |
| `Lexer.LexPriority` | metaL.py:213-235 | every token of a lexed input obeys the rule order, as `MatchPriority` states it |
| `Lexer.MatchLocal` | metaL.py:210-235 | at a word followed by a blank or the end, every rule matches as on the word alone |
| `Lexer.LexSplitsAtBlank` | metaL.py:210 | a word followed by a blank lexes as the word's tokens followed by those of the rest |
| `Lexer.ScanStep` | metaL.py:210-237 | one position of the scan skips a blank or a comment or appends one token, always advancing, and keeps the result of `Lex` invariant; by `MatchTotal` no position reaches `t_error` |
| `Lexer.Scan` | metaL.py:210-237 | the hand-written scanner returns exactly what `Lex` defines |
| `Words.LexWhole` | metaL.py:213-235 | a word one rule matches in full lexes to exactly that one token |
| `Words.MatchHexWord` | metaL.py:213-215 | a hex literal is read whole by the hex rule |
| `Words.MatchBinWord` | metaL.py:217-219 | a bin literal is read whole by the bin rule |
| `Words.MatchNumWord` | metaL.py:221-223 | a num literal is read whole by the num rule, ahead of int and sym |
| `Words.MatchNumExpWord` | metaL.py:225-227 | a num_exp literal is read whole by the num_exp rule, ahead of int and sym |
| `Words.MatchIntWord` | metaL.py:229-231 | an int literal is read whole by the int rule, ahead of sym |
| `Words.MatchBacktick` | metaL.py:234 | a back-tick is a `sym` token of its own, whatever follows it |
| `Words.MatchNameWord` | metaL.py:233-235 | a word of symbol characters that cannot start a number is read whole by the sym rule |
| `Words.MatchComment` | metaL.py:211 | at `#` or `\` no rule before the comment rule matches, and the comment is skipped |
| `Words.LexRuleWord` | metaL.py:213-231 | every literal of a number rule lexes to exactly its own token |
| `Words.LexName` | metaL.py:233-235 | a name lexes to one `sym` token |
| `Words.LexQuoted` | metaL.py:234 | a back-tick in front of a word gives a back-tick `sym` token and then the word's tokens |
| `Words.LexQuotedName` | metaL.py:234 | a quoted name lexes to the back-tick token and the name token |
| `Words.LexComment` | metaL.py:211 | a comment running to the end of the input yields no token |
| `Words.LexWord` | metaL.py:210 | a word, a blank and more text lex to the word's tokens and then the rest's |
| `Words.LexBlank` | metaL.py:210 | a leading blank is skipped |
| `Words.MatchIntThen` | metaL.py:213-231 | an int literal followed by a character that starts neither a longer number nor a radix prefix is read by the int rule |
| `Words.LexLine` | metaL.py:210-236 | words separated by blanks and ending in a comment lex to the words' tokens in order |
| `Prims.TokenNode` | metaL.py:213-235 | each rule builds a fresh primitive: `Sym` keeps its text, `Int` holds `int(V)`, `Hex`/`Bin` hold the digits after the prefix in base 16/2, `Num` keeps its literal |
| `Prims.IntDisplayRelexes` | metaL.py:117-119 | the display of an `Int` lexes back to one `Int` token whose node holds the same value |
| `Prims.HexDisplayRelexes` | metaL.py:122-126 | `hex(n)` lexes back to one `Hex` token whose node holds `n` |
| `Prims.BinDisplayRelexes` | metaL.py:129-133 | `bin(n)` lexes back to one `Bin` token whose node holds `n` |
| `Prims.RadixDisplay` | metaL.py:122-133 | a `Hex`/`Bin` node shows its prefix and lower-case digits denoting the same number as the literal it was read from, whatever its letter case |
| `Interp.Push` | metaL.py:70-71 | `ctx // node` puts the node on top of the stack and changes nothing else |
| `Interp.PopTop` | metaL.py:78-79 | `ctx.pop()` returns the top of the stack, and the stack below it is what remains |
| `Interp.DropAll` | metaL.py:201 | `DOT` leaves the stack empty and changes nothing else |
| `Interp.Word` | metaL.py:242-245 | `WORD` reports a token exactly when input remains, and then adds the token's node to the arena and pushes it; without input it changes nothing |
| `Interp.FindTop` | metaL.py:249-252 | on a hit `FIND` replaces the top with the bound node; on a miss the machine is as before; it hits exactly when the top's value is in the vocabulary |
| `Interp.Find` | metaL.py:249-252 | `FIND` fails with `IndexError` exactly on an empty stack |
| `Interp.Apply` | metaL.py:184-202 | `DOT` empties the stack; `?` changes nothing; `??` and `BYE` halt with the state unchanged; `WORD` pushes the next token's node |
| `Interp.EvalTop` | metaL.py:255-256 | `EVAL` only grows the arena, changes only the stack, and never adds input; a primitive is pushed back, a command runs on the stack without it, and any other node fails with `AttributeError` (`NoEval`) after the pop |
| `Interp.Eval` | metaL.py:255-256 | `EVAL` fails with `IndexError` exactly on an empty stack; otherwise it pops the top and evaluates it as `EvalTop` states |
| `Interp.Dispatch` | metaL.py:262-265 | a cycle after `WORD` only grows the arena, changes only the stack, and never adds input; a non-symbol is evaluated as it is, an unbound symbol fails with `SyntaxError`, and a bound symbol is replaced by its node, which is evaluated |
| `Interp.Loop` | metaL.py:261-265 | the loop ends because each cycle consumes a token; a normal end has consumed all input; the vocabulary is never changed |
| `Interp.LexedNodes` | metaL.py:213-235 | the nodes handed to the interpreter are the rules' nodes, in token order, each a fresh primitive |
| `Interp.Interpret` | metaL.py:259-265 | `INTERP` only grows the arena and changes only the stack |
| `Interp.Evaluate` | metaL.py:268-269 | `M(cmd)` only grows the arena and changes only the stack |
| `Interp.EvaluateRuns` | metaL.py:259-269 | `M(text)` pops its own source string and runs the loop over the nodes of `Lex(text)` |
| `Interp.CmdNode` | metaL.py:159-161 | `Cmd(F)` is a command node whose value is the function's name |
| `Interp.Materialize` | metaL.py:170-175 | a callable is wrapped in a new command node added at the end of the arena; a node is used as it is |
| `Interp.VmSetItem` | metaL.py:170-172 | `vm[key] = F` binds `key` to a new `Cmd(F)`, and `vm[key] = node` binds the node itself; other keys, the stack and other nodes are unchanged |
| `Interp.VmBind` | metaL.py:173-175 | `vm << F` binds under the function's name, and `vm << node` under the node's value, as `vm[key] = …` does |
| `Interp.RegisterNew` | metaL.py:170-172 | registering a function under a new name appends its command node and the key |
| `Interp.BootHeap` | metaL.py:182-202 | each start-up stage is a well-formed arena, of one node up to the first registration and then one node more per command |
| `Interp.Boot` | metaL.py:182-202 | the started machine is valid |
| `Interp.BootSelf` | metaL.py:182 | `vm['vm'] = vm` binds the machine to itself |
| `Interp.BootRegister` | metaL.py:186-202 | each start-up registration moves the machine node from the first `i` names to the first `i + 1` |
| `Interp.BootHeapRegisters` | metaL.py:186-202 | each start-up step after the first is `vm[name] = F` for the next built-in |
| `Interp.BootStep` | metaL.py:182-202 | each start-up step preserves the shape of the arena |
| `Interp.BootShape` | metaL.py:182-202 | after `i` start-up steps the arena is the machine node with the first `i` names and their commands |
| `Interp.BootVocabulary` | metaL.py:182-202 | after start-up, `vm` is bound to the machine and `BYE`, `?`, `??`, `.`, `` ` `` to their commands in that order; the stack is empty |
| `Interp.FindHit` | metaL.py:249-251 | on a hit, `FIND` leaves the stack with the top replaced by the bound node and the rest of the machine unchanged |
| `Interp.NoEvalCycle` | metaL.py:262-265 | a symbol bound to a node that is neither a primitive nor a command ends the loop with `AttributeError` (`NoEval`), the stack as it was |
| `Interp.NoEvalDispatch` | metaL.py:263-265 | once `WORD` has pushed a symbol bound to a frame without `eval`, the cycle fails with `NoEval` and leaves the stack without the symbol |
| `Interp.EvaluateNoEval` | metaL.py:255-269 | `M` on a single such symbol fails with `NoEval` and leaves the stack as it was |
| `Interp.EvalPrimIsIdentity` | metaL.py:102-103 | evaluating a primitive pushes it back: the machine is as before |
| `Interp.LiteralCycle` | metaL.py:262-265 | a literal token is pushed and stays: the cycle ends where `WORD` left it |
| `Interp.CommandCycle` | metaL.py:163-164 | a symbol bound to a command runs the command on the stack without the symbol; the command is not pushed |
| `Interp.UnresolvedCycle` | metaL.py:263-264 | a symbol missing from the vocabulary ends the run with `SyntaxError` and the symbol left on top |
| `Interp.LoopContinues` | metaL.py:261-265 | a cycle that ends normally hands over to the next iteration |
| `Interp.LiteralStep` | metaL.py:262-265 | after a literal, the loop goes on from the state `WORD` left |
| `Interp.ReadTokens` | metaL.py:242-245 | `k` reads consume exactly `k` tokens |
| `Interp.ReadTokensShape` | metaL.py:242-245 | `k` reads add the next `k` nodes, in order, at the end of the arena and push them |
| `Interp.LoopLiterals` | metaL.py:261-265 | literal tokens never end the loop |
| `Interp.AllLiterals` | metaL.py:259-265 | input made only of literals runs to the end with every node pushed in order |
| `Interp.UnresolvedKeepsEarlierEffects` | metaL.py:263-264 | an unknown symbol after literals aborts the run, with the literals and the symbol still on the stack |
| `Interp.QuoteCycle` | metaL.py:242-246 | the back-tick, bound to `WORD`, pushes the following token unevaluated and nothing else |
| `Interp.QuoteThenLiterals` | metaL.py:242-265 | a quoted token followed by literals leaves, in order, the quoted token and the literals on the stack, without the back-tick |
| `Scenarios.LexQuoteSymbol` | test_metaL.py:30-34 | `` `symbol `` lexes to the back-tick `sym` and `sym symbol` |
| `Scenarios.LexMinusOne` | test_metaL.py:35 | `-01` lexes to one `int` token |
| `Scenarios.MinusOneValue` | test_metaL.py:35 | `int('-01')` is `-1` |
| `Scenarios.LexDecimalFraction` | test_metaL.py:36 | `+02.30` lexes to one `num` token |
| `Scenarios.LexPaddedExponent` | test_metaL.py:30 | `-04e+5` lexes to one `num` token, by the num_exp rule |
| `Scenarios.LexExponent` | test_metaL.py:48 | `-4e+5` lexes to one `num` token, by the num_exp rule |
| `Scenarios.LexDeadBeef` | test_metaL.py:38 | `0xDeadBeef` lexes to one `hex` token |
| `Scenarios.DeadBeefValue` | test_metaL.py:38 | `DeadBeef` in base 16 is 3735928559 |
| `Scenarios.LexThirteen` | test_metaL.py:39 | `0b1101` lexes to one `bin` token |
| `Scenarios.ThirteenValue` | test_metaL.py:39 | `1101` in base 2 is 13 |
| `Scenarios.LexOneE5` | metaL.py:213-235 | `1e5` is a word the sym rule could read whole, yet it lexes to `Int 1` then `Sym e5`, because int comes first in file order |
| `Scenarios.LexTrailingComment` | test_metaL.py:48 | the trailing `\ number literals` yields no token |
| `Scenarios.NumberNodes` | test_metaL.py:48-51 | the line's tokens build the quoted back-tick, `symbol`, `-1`, the two float literals, 0xDEADBEEF and 13 |
| `Scenarios.LexNumberLine` | test_metaL.py:48 | the test line, as its six words and its comment, lexes to the quoted `symbol` and the five literal tokens in order |
| `Scenarios.LexSixWordLine` | metaL.py:210-236 | six words that lex on their own, blank-separated and ending in a comment, lex to their tokens in order |
| `Scenarios.NumberTokensProgram` | metaL.py:259-269 | any input that lexes to the line's tokens runs to the end with the six literal nodes on the stack |
| `Scenarios.NumbersProgram` | test_metaL.py:46-51 | interpreting the test line on the booted machine ends normally with exactly the six literals on the stack, in source order |
| `Scenarios.EvalVmText` | metaL.py:255-256 | on the booted machine, a source that is just the word `vm` fails with `AttributeError` (`NoEval(VM)`) and an empty stack |
| `Scenarios.EvalVmFails` | metaL.py:255-256 | `M('vm')` fails with `NoEval(VM)`: the machine is bound under `vm` but has no `eval` |
| `FrameDumps.MinusOneDisplay` | test_metaL.py:35 | `Int -1` shows as `-1` |
| `FrameDumps.DeadBeefDisplay` | test_metaL.py:38 | `hex(0xDEADBEEF)` is `0xdeadbeef` |
| `FrameDumps.ThirteenDisplay` | test_metaL.py:39 | `bin(13)` is `0b1101` |
| `FrameDumps.EmptyFrameDump` | test_metaL.py:11-12 | `Frame('').test()` is `\n<frame:>` |
| `FrameDumps.SymbolDump` | test_metaL.py:23-24 | `Sym('test').test()` is `\n<sym:test>` |
| `FrameDumps.Hello` | test_metaL.py:9 | `Frame('Hello') // Frame('World') << Frame('slot')` builds a well-formed three-node arena |
| `FrameDumps.HelloNodes` | test_metaL.py:9 | `Hello` holds `slot` in its slot and `World` in `nest` |
| `FrameDumps.HelloDump` | test_metaL.py:14-16 | `hello.test()` is `\n<frame:Hello>`, then `\n\tslot = <frame:slot>`, then `\n\t<frame:World>` |
| `FrameDumps.HelloSlotDump` | test_metaL.py:18-19 | `hello['slot']` is the bound frame and its test dump is `\n<frame:slot>` |
| `FrameDumps.NumbersDump` | test_metaL.py:46-51 | after the test line, `vm.test(voc=False)` is the machine's header followed by one indented line per stack value, in source order |

## Left out

- Plotting with `graphviz` (`from graphviz import Digraph`): it is unused by the core and is I/O.
- PLY itself: the rule order it imposes is written out by hand in `Lexer.Match`. Its lazy token stream is replaced by lexing the whole source first. The two agree because `t_error` cannot fire and only `WORD` reads tokens.
- `float(V)` in `Num`: floating point is not modelled. A `Num` keeps its literal, and its display is the `showFloat` parameter, so the test's `2.3` and `-400000.0` are not derived.
- Python's equality of `1` and `1.0` as slot keys is not modelled: `Integer` and `Real` keys are distinct.
- The `@address` suffix that `head` adds outside test mode: `id()` is a memory address.
- The output of `?` and `??`: printing is not modelled, so `?` leaves the machine unchanged and `??` halts like `BYE`.
- `sys.exit` in `BYE` and `??`: the run ends with the `Halted` outcome, not by leaving the process.
- The `.ini` start-up file under `__main__`, and `M` acting on a global: the machine is an explicit argument.
- The container classes `Vector`, `Stack`, `Queue`, `Dict` and `Set`, and `Seq`: they add no behaviour. Evaluating a node without `eval` fails with the `NoEval` fault, Python's `AttributeError`.
- The exception messages: only which exception is raised is kept.
- Scenarios.NumbersProgram: the test line is given as `Line(words, comment)` with each word pinned by `NumberLine`, not as one string literal.
- FrameDumps.NumbersDump: the line is given as for `NumbersProgram`. The two float lines read `<num:` + `showFloat(literal)` + `>`, not `2.3` and `-400000.0`.
- Dump.ValText: a `Hex` or `Bin` node holding a non-integer prints its value as text, where Python's `hex()`/`bin()` would raise `TypeError`; nodes built by the lexer always hold an integer.
- FrameDumps.HelloDump: stated for any arena of the shape `HelloShape` describes. `HelloNodes` shows that the test's set-up builds that shape. The expected text is given line by line.
- Dump.Test: its own contract states only that the dump begins with the header line. The full format is stated by `DumpFlat`, `DumpListAllSeen`, `DumpSelfBound` and the scenarios.
- Interp.Interpret: its contract states only what every run keeps (the arena grows, only the stack changes). What it computes on a source string is stated by `Interp.EvaluateRuns` together with the loop lemmas.
- Interp.Evaluate: as for `Interpret`; `Interp.EvaluateRuns` states the run on the lexed nodes.
