# Verified cores of PennMUSH

PennMUSH is a server for text-based shared worlds. This project models six parts of it that are written as
algorithms over state of their own, and proves what they promise, for all inputs, runs and reachable states. The form
is that of the source: what the source changes in place is changed in place here, by methods on classes and arrays
with loops where the source loops, and each such method is proved against a specification function or relation about
which the laws are then proved.

- **Locks** (`src/boolexp.c`, files `Lock*.dfy`). A lock is text such as `=Bob|!(flag^wizard&@gate/use)`. It is parsed
  by recursive descent over the characters, the tree is simplified in place, code with labels and a pool of strings is
  generated, jumps that land on jumps are threaded, and all is emitted as bytes: five to an instruction, absolute jump
  offsets, strings behind the code. A loop over the bytes with registers R and S evaluates it, another prints it into a
  buffer of limited size, a third patches it when objects disappear. The main results: compiled code answers what the
  parsed text means and runs exactly the tests that short-circuit evaluation runs, through all four stages; a lock that is
  typed in literal characters answers what those characters say, in the terms of the game; threading ends and changes no
  run; patching the locks of all objects that are gone changes no answer of any lock; evaluation ends even
  on locks that refer to each other in a circle; which locks can be stored; and, down to the last character, which locks
  are the same lock after they were saved to a database and loaded again.
- **Huffman compression** (`src/comp_h.c`, files `Huffman*.dfy`). Sort-and-merge builds an optimal tree, rotations
  limit its depth, unary nodes force ones into the codes, the terminator is grafted at eight zeros; the encoder packs
  bits through a staging word and the decoder walks the tree bit by bit. Because the result is kept as a C string, no
  byte may be zero too early. The main results: optimality of the tree, what its rotations gain, the bound on runs of
  zeros, the exact length, and the round trip through the C string for every text.
- **The attribute list** (`src/attrib.c`, order from `src/sort.c`, files `Attr*.dfy`). Names such as ``A`B`C`` form a tree
  that is kept as one sorted list. Adding makes missing branches, wiping cuts out a subtree but spares what the player
  may not write. The main results: the shape of the tree along every run, and that wiping is exact.
- **The buffer queue** (`src/bufferq.c`, `BufferQueue.dfy`, `BufferBytes.dfy`). Messages in one byte buffer of limited
  size. The main result: through any run of adds and resizes the bytes stand for a suffix of the accepted messages.
- **The word codec** (`src/comp_w.c`, files `Word*.dfy`). Words are replaced by places in a hash table that only grows.
  `WordRules.dfy` says what the operations do, `WordCodec.dfy` holds the loops, `WordLaws.dfy` the laws. The main result:
  through any texts, every 7-bit text comes back in every later state of the table, exactly for safe alphabets.
- **The random generator** (`src/SFMT.c`, `SfmtRecursion.dfy`, `Sfmt.dfy`). The main result: filling an array at once
  and drawing one by one give the same numbers, and later numbers go on the same.

`Basics.dfy` and `MachineInts.dfy` hold bytes, C strings and the storage of integers. `dafny verify dfyconfig.toml`
checks the whole project.

## How the model reads the source

- A C string is a sequence of bytes without zero (`Text`); where zeros can get in, the cut at the first zero is modelled.
- Linked lists of attributes and of assembly instructions are sequences held in a field and changed by the methods;
  tree nodes, buffers and tables are objects and arrays changed in place.
- Sizes and constants are those of the source: BUFFER_LEN 8192, CODE_BITS 25, INSN_LEN 5, N 156, POS1 122, MAXTABLE
  32768, COLLISION_LIMIT 20, MAXWORDS 100, MAX_CHUNK_LEN 16383, a line overhead of 20 bytes.
- Locks are parsed from and printed to characters, escapes, white space and limits included. What a name stands for is up
  to a reader: while a database is loaded objects are numbers, which is concrete; at other times matching a name is an
  oracle that finds nobody under the empty name. The table of lock names is an oracle keyed by upper case, and locks are
  found without regard to case. `isspace` and `toupper` are those of the C locale.
- What a test finds (attribute values, flags, softcode, permissions) is an oracle of the world; constants, identity,
  carrying, ownership, types and other locks are concrete. A trace records every test run, so the order of evaluation is
  part of the meaning.
- The collation of the locale is a parameter: any total order on single branches that tells all strings apart. That a
  name comes before what is under it, and that what is under it stands together, is proved of the comparing loop.
- A player is what the permission checks ask: number, owner, whether God, whether wizard. The table of standard
  attributes, the allowed characters, the EMPTY_ATTRS option and the attribute limit are parameters.
- Compression set-up works for any frequencies; a code longer than CODE_BITS, on which the source stops, is the
  result `ok == false`.

Where comments and code differ the model follows the code, and one proved fact goes against a comment: the attribute
in front of a branch's first child is always the branch itself (`src/attrib.c:143-149` leaves room for another). Posting
a message drops old ones of as many bytes as the whole new message takes, not only as many as are missing
(`src/bufferq.c:60-62`); the model does the same.

Some promises hold under a condition, which is stated as such.

- The truth of a lock is guaranteed when its type letters are settled: one of the four, or R false on arrival
  (`LockLanguage.EvalTreeHolds`, with `LockLanguage.UnknownTypeKeepsR` as the other side).
- What a typed text means is stated for plain words: tests of letters, digits and underscores, lock names in the form the
  table of locks gives them, and objects of any name that has no space at its ends, does not start with `(`, and is not
  read as `#t` or `#f` (`LockSource.SourceRead`).
- A lock that is saved and loaded is the same lock if and only if its words come back (`LockReload.ReloadExactly`). There
  are four ways to fail: the printed text is longer than the buffer (`LockChains.SavedAndUnlocked`); a text of softcode,
  flag, type, power or channel locks has characters that the printer escapes and the parser does not unescape
  (`LockReload.EvalReloaded`); an attribute pattern, name or address that is not the last word ends with a lone backslash
  (`LockReading.SwallowedWord`); or a reference without a lock name took a type that is not the proper name of a lock
  (`LockTypes.TypedNames`). Then the lock is lost if the type is no good name, as `USER:FOO` is not
  (`LockTypes.UserLockLost`); otherwise the name comes back in its proper form (`LockReloaded.ReloadsAs`), and where only
  its case changes, as from `ENTER` to `Enter`, the lock answers as before (`LockCase.ReloadedHolds`).
- Squashing the compression tree keeps every code short enough if the depth it returns is at most 21; a depth within
  CODE_BITS is not enough (`HuffmanDepth.DepthBoundsCodes`, `HuffmanDepth.DepthTooSmall`). That it takes a comb of any
  length down is proved for combs to the right (`HuffmanGain.CombShorter`).
- A lock is stored if and only if its code, return and strings take at most 16383 bytes (`LockPipeline.ParseBoolexp`); up
  to `(16377 - n) / 6` characters are always enough, `n` being the length of the default lock name
  (`LockFits.CompiledFits`). All texts that fit a buffer can be stored as attributes if and only if no code has more
  than sixteen bits (`HuffmanStore.AllStoredExactly`).
- One pass of the tree optimiser merges every `=x|+x` pair, and a second changes nothing, if and only if no pair is hidden
  under `!!` (`LockTree.OnePassExactly`, `LockTree.IdempotentExactly`); the tests of a lock stay the same unless a pair is
  merged into one test.
- Root marks stay exact if and only if no new attribute is handed the root flag (`AttrRules.AddedExact`, with
  `AttrRules.MarkGivenToLeaf` as a case).
- The compression tree is best among all binary trees if and only if no byte has a negative frequency
  (`HuffmanBuild.BestExactly`).
- A 7-bit text always comes back from the word codec if and only if no letter but 0x80 stops being one without its high
  bit, or there are no 7-bit letters at all (`WordLaws.SevenBitsExactly`, with `WordLaws.LostBehindZero` as a case). In
  the C locale the condition holds; in Latin-1, where 0xAA is a letter, it fails.

## Model

| member | source | states |
|---|---|---|
| LockLanguage.EvalTreeHolds | src/boolexp.c:427-618 | If the letter of every TYPE test is one of the four, or R is sure to be false when evaluation comes to the test, evaluating a lock tree register by register (R after each test, short circuits, `!`) gives its boolean truth, and the tests run are the ones that left-to-right short-circuit evaluation asks for, in that order |
| LockLanguage.UnknownTypeKeepsR | src/boolexp.c:569-588 | Why the letters have to be valid: a TYPE test with another letter leaves R as the test before it left it, so `TYPE^X` passes after a test that passed and fails after one that failed |
| LockLanguage.RunReachesRet | src/boolexp.c:427-618 | A program whose jumps all go forward reaches OP_RET within as many steps as it has instructions left, from every machine state |
| LockTree.SimplifiedNormal | src/boolexp.c:1733-1787 | The tree optimiser leaves no NOT above a NOT or above a constant |
| LockTree.SimplifiedValue | src/boolexp.c:1733-1787 | The tree optimiser keeps the value of every tree in every world and from every register state, whatever the type letters |
| LockTree.SimplifiedTests | src/boolexp.c:1733-1787 | Unless a `=x\|+x` pair is merged, it keeps the tests run and their order as well |
| LockTree.OnePassExactly | src/boolexp.c:1733-1787 | One pass leaves no `=x\|+x` pair to merge if and only if the tree has no pair hidden under `!!`, which can be read off the tree beforehand |
| LockTree.IdempotentExactly | src/boolexp.c:1733-1787 | The optimiser is idempotent on a tree exactly under the same condition |
| LockTree.PairUnderNots | src/boolexp.c:1733-1787 | The smallest family of trees that break it, for every object: `!!=x\|+x` changes again in a second pass |
| LockTree.Node.Optimize | src/boolexp.c:1733-1787 | Rewriting the nodes in place yields the simplified tree, only drops nodes and stays a proper tree |
| LockAssembler.GenExtends | src/boolexp.c:1532-1601 | Generating code for a subtree only appends: earlier instructions, strings and label numbers stay |
| LockAssembler.GenFresh | src/boolexp.c:1454-1460 | A label handed out and not yet placed is never placed by code generated for another subtree |
| LockAssembler.GenTidy | src/boolexp.c:1532-1601 | Through generation every label is placed at most once and every label used was handed out |
| LockGeneration.GenRuns | src/boolexp.c:1532-1601 | The code of a subtree, inside any program it has grown into, moves the machine exactly as evaluating the subtree does: same R, same S, same tests in the same order |
| LockGeneration.GeneratedCorrect | src/boolexp.c:1608-1627 | Running the generated program from its start is evaluating the whole tree, from every register state |
| LockGeneration.GeneratedForward | src/boolexp.c:1532-1627 | Every jump of a generated program goes forward to an instruction inside it |
| LockThreading.ThreadOneRuns | src/boolexp.c:1801-1846 | Sending one jump past the jump it lands on changes no run from any place and any machine state |
| LockThreading.ThreadOneFacts | src/boolexp.c:1801-1846 | Such a step keeps the program forward and its shape, moves the target strictly forward, and undoes no earlier step: the measure by which threading ends |
| LockThreading.RetargetLinks | src/boolexp.c:1657-1668 | Giving a jump another label changes that one jump of the linked program and nothing else |
| LockThreading.InsertLabelLinks | src/boolexp.c:1824-1840 | A new label put anywhere, even ahead of the pass, leaves the linked program as it was and marks its place |
| LockCompiler.ThreadSame | src/boolexp.c:1817-1823 | Two jumps on the same condition: taking over the second label is one threading step of the linked program |
| LockCompiler.ThreadOpposite | src/boolexp.c:1824-1840 | Opposite conditions: jumping to a new label right behind the second jump is one threading step, and labels stay unique |
| LockCompiler.Assembler.GenLabelId | src/boolexp.c:1454-1460 | Hands out the next label number and changes nothing else |
| LockCompiler.Assembler.AppendInsn | src/boolexp.c:1471-1523 | Appends one instruction behind the others |
| LockCompiler.Assembler.AppendStringInsn | src/boolexp.c:1471-1523 | Appends an instruction with a string; a string seen before is shared, a new one joins the pool |
| LockCompiler.Assembler.Generate | src/boolexp.c:1532-1601 | The walk over the parse nodes builds exactly the code that the generation lemmas speak of |
| LockCompiler.Assembler.InsnAfterLabel | src/boolexp.c:1697-1710 | Finds the first real instruction behind a label, or that there is no such label |
| LockCompiler.Assembler.CountToLabel | src/boolexp.c:1657-1668 | The position of a label counts the instructions before it and no labels |
| LockCompiler.Assembler.CountToString | src/boolexp.c:1676-1689 | The offset of a string is the length of the strings before it with their zeros |
| LockCompiler.Assembler.ThreadJump | src/boolexp.c:1815-1841 | One round of the pass is one threading step of the linked program, and strings and arguments stay good |
| LockCompiler.Assembler.OptimizeAsm | src/boolexp.c:1801-1846 | The pass ends although it revisits the same jump and inserts labels ahead of itself; afterwards every run from every state is as before, and no jump lands on another jump |
| LockBytecode.GeneratedArgsOk | src/boolexp.c:1471-1523 | Every string argument of generated code names a string of the pool, and no string is in the pool twice |
| LockBytecode.StringInPool | src/boolexp.c:1676-1689 | Behind the code, at the offset computed for it, stands each string up to its zero |
| LockBytecode.EmittedEncodes | src/boolexp.c:1853-1923 | The bytes are the linked program: five bytes an instruction, every jump offset a later instruction boundary of the code section, every string argument at the zero-ended string that was given |
| LockCompiler.Assembler.EmitBytecode | src/boolexp.c:1853-1923 | Filling the byte buffer writes exactly those bytes, code and strings, and nothing is left over |
| LockFits.CompiledFits | src/boolexp.c:1853-1921 | The 16-bit length computed for a lock from text that fits a buffer is its length, never wrapped; it is code, return and strings, and at most six bytes a character, six more and the default lock name |
| LockParser.CopyName | src/boolexp.c:1115-1130 | Copying a word character by character, without its backslashes and without space at its end, takes it up to the first character that ends it |
| LockParser.TakeApart | src/boolexp.c:992-1037 | Going through a word finds its first separator that has no backslash in front, a name that is allowed and a text behind it, or that it is no such test, or a wrong one |
| LockFits.ScanWidth | src/boolexp.c:1103-1446 | No text is shorter than the words the parser finds in it, counted as the bytes of code are |
| LockParser.Parser.PE | src/boolexp.c:1423-1446 | The recursive descent over the characters and the shared position builds the tree of the grammar for `\|` over the words found there and stops behind it, or finds no tree; that the character is `\|`, and what it means, is in LockSource.SourceRead and LockAnswer.SourceHolds |
| LockParser.Parser.PT | src/boolexp.c:1396-1419 | The same for `&`, with the same two theorems for the character and what it means |
| LockParser.Parser.PF | src/boolexp.c:1376-1391 | The same for `!` |
| LockParser.Parser.PA | src/boolexp.c:1239-1372 | The same for the marks `@`, `=`, `+` and `$` in front of an object, and for what follows without a mark |
| LockParser.Parser.PL | src/boolexp.c:1180-1235 | The same for parentheses and for words: tests of an attribute, of softcode, of a flag, objids, objects |
| LockParser.Parser.PR | src/boolexp.c:1103-1176 | The object at the position, a name or a number, or TRUE or FALSE, and the position behind it |
| LockSource.SourceRead | src/boolexp.c:992-1446 | Which sign means what: for every tree of plain words, its text written out in literal characters, `!` binding tighter than `&` and `&` than `\|`, with the marks `=`, `+`, `$`, `@` and `/`, the signs `:`, `/` and `^`, the names of the flag tests, objects by number or by any name with a backslash in front of what is special, in small or capital letters and with any space between words, is read as that tree, regrouped |
| LockSource.TwoTruths | hdrs/boolexp.h:15-24 | On bytes: `#t&#f` is the AND of the two, `#t\|#f` the OR |
| LockSource.PrintedSource | src/boolexp.c:713-855 | Printed with objects by number, as `me`, or by name, a lock of plain words gives that same text in literal characters, where it all fits |
| LockPipeline.ParseBoolexp | src/boolexp.c:1936-1964 | Text in, a lock out: none exactly when the text has no tree; otherwise bytes that hold code of the simplified tree, in the store exactly if there are at most 16383 of them, and else the server stops; and for the text of every tree of plain words, in literal characters, it is code of that tree |
| LockChains.ChainStored | src/boolexp.c:1919-1919 | `#t&#t&...` takes ten bytes a word: chains up to 1638 words are stored and longer ones stop the server, which text of 4916 characters does |
| LockPipeline.CompileTree | src/boolexp.c:1936-1964 | Generation, threading and emission together turn a simplified tree into bytes that hold forward code with all its runs |
| LockPipeline.CompiledAnswer | src/boolexp.c:1936-1964 | Compiler correctness through all four stages: compiled code gives the answer of the tree as parsed and runs exactly the tests of the simplified tree in order, within as many steps as it has instructions |
| LockPipeline.CompiledTruth | src/boolexp.c:397-623 | Under the same condition on type letters, asked of the tree as parsed, that answer is the boolean truth of the lock |
| LockPipeline.CompiledForMachine | src/boolexp.c:397-623 | The bytes of a compiled lock are what the evaluation loop may be given |
| LockMachine.Decoded | src/boolexp.c:427-440 | What the loop reads at an instruction boundary, opcode and argument, is the instruction that was emitted there |
| LockMachine.Machine.EvalBoolexp | src/boolexp.c:397-623 | For locks compiled or patched since, evaluation always returns, even where locks refer to each other in a cycle; bad players and too deep recursion are refused, a missing lock lets everybody else pass, and a lock of one test answers by the game: `=` if the object is live and the player, `+` if it is live and carried, none of them for one or the other, `$` if the owners are the same, `@` by the answer one level deeper if that lock may be read, TYPE by its letter; any other answers what it means at that depth; evaluation nests at most MAX_DEPTH+2 deep and leaves the recursion counter as it was |
| LockAnswer.HoldsExactly | src/boolexp.c:397-623 | What a lock answers, without the machine: a good player passes, not too deep down, if and only if there is no lock or the conjunctions, disjunctions and negations of its tests, in the terms of the game, hold |
| LockAnswer.SourceHolds | src/boolexp.c:1936-1964 | From text to answer: the lock read from the literal text of a tree, optimised, lets a player pass if and only if the tree says so in the terms of the game |
| LockAnswer.TestLock | src/fundb.c:1390-1413 | `testlock()` as a whole, text compiled and evaluated: a complaint if and only if the text is no lock, or about the victim; and for the text of every tree of plain words what that tree says in the terms of the game |
| LockMachine.Machine.RunBytecode | src/boolexp.c:427-618 | The loop over `pc`, `r` and `s` computes the value of the tree the bytes stand for and runs exactly the tests of that tree, in its order |
| LockPatch.IsEvalLock | src/boolexp.c:2012-2031 | Scanning the bytes finds whether any instruction evaluates or asks another lock |
| LockPipeline.IsCostlyLock | src/boolexp.c:2012-2031 | For compiled code that is whether the tree has such a test anywhere |
| LockPatch.PatchedRuns | src/boolexp.c:2259-2300 | From every place and state, the patched program run in any world and the original run in a world that agrees but for the patched objects being garbage give the same R; only the tests of those objects are missing from the patched run |
| LockPatch.CleanupBoolexp | src/boolexp.c:2259-2300 | Patching in place writes LOADR 0 over the five bytes of exactly the tests of garbage objects, leaves every other byte as it was, and says whether it changed any |
| LockPatch.PatchedAnswers | src/boolexp.c:2259-2300 | Where the patched objects are garbage, a patched lock still answers what the tree it came from answers, by the other tests of that tree |
| LockPatch.PatchedIsCode | src/boolexp.c:2259-2300 | In every world the patched program gives the value of the tree in which the tests of the objects are replaced by FALSE, by the tests of that tree |
| LockPatch.PatchedForMachine | src/boolexp.c:2259-2300 | So patched bytes are again bytes that the evaluation loop may be given |
| LockPatch.CleanedHolds | src/boolexp.c:2259-2300 | Cleaning all locks of a game of its garbage changes no answer, however the locks ask one another and at whatever depth |
| LockDecompiler.GenCodeAt | src/boolexp.c:1532-1601 | Generated code lies instruction by instruction where the shape of the tree puts it, parentheses markers included |
| LockDecompiler.ScanForNegation | src/boolexp.c:759-784 | Looking ahead over nested parentheses finds whether a negation follows the matching close |
| LockDecompiler.UnparsedTree | src/boolexp.c:713-855 | Printing the compiled form of a normalised tree, patched since or not, gives the words of the tree with FALSE for the patched tests: parentheses come back from the markers, `!` from the look-ahead |
| LockSpelling.Writer.SafeBstr | src/boolexp.c:661-700 | Writing a string with backslashes in front of what means something to the parser stores as much of the escaped string as there is room for |
| LockSpelling.Writer.SafeDbref | src/strutil.c:722-734 | The number of an object is stored whole or not at all |
| LockDecompiler.UnparseBoolexp | src/boolexp.c:713-855 | The printing loop over the bytes leaves in the buffer the words that the linked program prints, spelled out, as far as 8191 characters go |
| LockRoundTrip.RegroupedEval | src/boolexp.c:1536-1575 | Re-associating chains of `&` and `\|` keeps value, tests and their order in every world |
| LockRoundTrip.ParsePrintedE | src/boolexp.c:1396-1446 | Parsing the words printed for any tree gives the tree back, regrouped, and stops right behind it |
| LockRoundTrip.DecompileReparse | src/boolexp.c:713-855 | On words, before they are spelled out: what is printed from the code of a normalised tree, patched since or not, parses to the tree, patched and regrouped |
| LockReading.ReadToken | src/boolexp.c:992-1372 | Any word of a lock, spelled out and followed by what may follow it, is read as that word, with the backslashes added to its text left in it and with a lock name in its proper form; a lock name that is not good is read as an error |
| LockReading.SwallowedWord | src/boolexp.c:1206-1213 | A text that ends with a lone backslash is read on into what follows it |
| LockReload.TakenE | src/boolexp.c:1396-1446 | Whatever is parsed: the words taken are those of the atoms of the tree, in order, with as many parentheses closed as opened |
| LockReload.OtherTree | src/boolexp.c:1396-1446 | If from some word on something else is read, or nothing, then what is parsed is not the lock that was printed |
| LockReload.ReloadExactly | src/boolexp.c:713-855 | Saving and loading a lock gives the same lock, regrouped, if and only if its words come back: all but the last fit the buffer whole, with proper lock names, nothing escaped and no lone backslash at the end, and the last is such a word or lacks only the end of TRUE or FALSE, a lock name that is the type at loading, or added backslashes |
| LockReload.FittingComesBack | src/strutil.c:634-652 | Where the whole text fits the buffer the condition is that nothing in it is escaped and all its lock names are proper |
| LockReload.CutComesBack | src/strutil.c:634-652 | Where it does not fit, only the last word may be cut, and it must be TRUE, FALSE, a test, or a lock name that is the type at loading |
| LockReload.EvalReloaded | src/boolexp.c:661-700 | A test of softcode alone is read back with a backslash in front of each character of its text that the printer escapes |
| LockReloaded.ReloadsAs | src/boolexp.c:713-855 | What is read back where the text fits and no lone backslash runs on: the lock, regrouped, with each lock name in its proper form and each text as the printer escaped it; or no lock at all exactly if some lock name is not good |
| LockCase.ReloadedHolds | src/lock.c:396-425 | If only the case of lock names changed, the lock that comes back lets the same players pass, at every depth of the game |
| LockStored.ReloadedStored | src/boolexp.c:1853-1921 | What is loaded when a lock comes back takes no more bytes than the lock that was saved, patched or not |
| LockChains.ChainReloads | src/boolexp.c:713-855 | A chain of `#t` comes back exactly up to 1365 words, since `#TRUE` is longer than what was typed: 4097 typed characters are too many |
| LockChains.SavedAndUnlocked | src/db.c:577-581 | Saved and loaded, a lock of 1366 times `#t` is no lock at all |
| LockTyped.TypedReadable | src/boolexp.c:992-1372 | Whatever was typed, by name or by number and under any type: the words of the lock are such as ReloadExactly asks for, and each lock name is proper or is the type under which the lock was typed |
| LockTypes.ReadTyped | src/boolexp.c:1339-1370 | A text is read the same under every type, but for the type itself in the references without a lock name |
| LockTypes.TypedNames | src/boolexp.c:1339-1370 | The lock names of a typed lock are all proper if and only if there is no reference without a lock name or the type under which it was typed is itself proper |
| LockTypes.BareReloads | src/boolexp.c:1339-1370 | Typed under one type and kept under another, a lock `@obj` comes back with the proper form of the first, or not at all if that is no good name |
| LockTypes.UserLockLost | src/db.c:1085-1090 | `@#5`, typed under `USER:FOO` and kept under `FOO`, is no lock any more when it was saved and loaded |
| LockPipeline.Decompile | src/boolexp.c:713-855 | Printing the bytes of a compiled lock, patched since or not, gives the words of its tree, patched, spelled out as far as there is room; for a tree of plain words that fits, its text in literal characters |
| LockPipeline.SaveAndLoad | src/db.c:577-581 | A lock, patched or not, printed by number and compiled again while a database is loaded: what is loaded is that lock, regrouped and with the same value everywhere, if and only if its words come back, and then it is stored if it could be stored before; whatever is read is stored exactly if it takes at most 16383 bytes, and else the server stops |
| LockPipeline.TypedReloads | src/db.c:1085-1090 | The same for whatever was typed under one type and kept under another: it reloads as its simplified tree, regrouped, if and only if the words of that tree come back, which asks of the type what TypedNames says |
| HuffmanOptimal.CostIsDepth | src/comp_h.c:428-462 | The sum of all merge weights is the frequency-weighted depth of the leaves |
| HuffmanOptimal.Exchange | src/comp_h.c:428-462 | Any tree over the weights can be turned into one in which the two least are siblings, at no cost |
| HuffmanOptimal.BoundedMerge | src/comp_h.c:439-447 | Merging the two least keeps the bound below every tree over the weights |
| HuffmanBuild.LastIsOptimal | src/comp_h.c:428-462 | The last tree left is as good as every tree over the same bytes whose nodes have two children or none |
| HuffmanBuild.BestExactly | src/comp_h.c:428-462 | A tree that is best among those with two children or none at a node is best among all binary trees over the bytes if and only if no byte has a negative frequency |
| HuffmanBuild.BuildTree | src/comp_h.c:408-462 | Sort and merge leave in place a tree over the 255 bytes but EOS whose total frequency-weighted depth is least among all trees with two children or none at a node, for any frequencies, and least among all binary trees of whatever shape exactly if no frequency of a byte is negative; and it is the very tree that merging the two last entries of the sorted list again and again gives |
| HuffmanSquash.NoTurnAroundLeaf | src/comp_h.c:229-248 | The guards, which test only computed depths, never ask for a rotation around a leaf |
| HuffmanSquash.NoTurnAtLeaf | src/comp_h.c:229-248 | At a leaf they ask for none at all |
| HuffmanSquash.SquashedKeeps | src/comp_h.c:219-252 | Squashing keeps the leaves from left to right and the two-or-no-children shape |
| HuffmanSquash.FixTreeDepth | src/comp_h.c:219-252 | The recursion with its rotations in place ends, uses the same nodes, leaves the squashed tree and returns its depth; where one squashed child is deeper than 25 and more than a level deeper than the other it is lifted and the part between changes sides, and only there |
| HuffmanGain.TurnRightGains | src/comp_h.c:229-238 | A rotation to the right brings the node up if and only if the part that changes sides is not as deep there, and otherwise takes it down by at most a level |
| HuffmanGain.TurnLeftGains | src/comp_h.c:239-250 | The same for a rotation to the left |
| HuffmanGain.CombShorter | src/comp_h.c:219-252 | A comb of any length above CODE_BITS comes out shorter: its longest way, the longest that a tree over so many bytes can have, is not that long any more |
| HuffmanDeep.SetUpDeep | src/comp_h.c:326-548 | A table of frequencies whose optimal tree has a code of 26 bits, and on which set-up goes through because of one rotation |
| HuffmanDepth.DepthBoundsCodes | src/comp_h.c:219-252 | The depth bounds every code of the finished tree up to a sixth, so that a depth of at most 21 rules out a code that is too long |
| HuffmanDepth.DepthTooSmall | src/comp_h.c:466-471 | A depth within CODE_BITS does not: a tree on which nothing is rotated and whose finished form has a code of 26 bits |
| HuffmanInit.FixEdge | src/comp_h.c:486-502 | A one is put on the left edge at the fifth place or at its end |
| HuffmanInit.AddOnes | src/comp_h.c:256-282 | Unary nodes are put in place wherever zeros would run too long |
| HuffmanInit.GraftTerminator | src/comp_h.c:514-529 | The terminator is grafted in place at eight zeros |
| HuffmanCodes.EdgeFixedLeading | src/comp_h.c:486-502 | After the edge fix and the ones, no code starts with more than four zeros and each has a one |
| HuffmanCodes.WithOnesRuns | src/comp_h.c:256-282 | After the ones, no code has more than seven zeros in a row or more than two at its end |
| HuffmanCodes.CodesGood | src/comp_h.c:482-529 | Every code of the finished tree contains a one, at most 4 leading, 2 trailing and 7 inner zeros in a row; only EOS is eight zeros |
| HuffmanCodes.TerminatorCode | src/comp_h.c:512-529 | Eight zeros lead to the terminator |
| HuffmanCodes.CodeTreeBytes | src/comp_h.c:482-529 | The three changes keep the leaves and add the terminator |
| HuffmanCodes.CodeUnique | src/comp_h.c:286-312 | A byte with one leaf has one code |
| HuffmanInit.BuildCtable | src/comp_h.c:286-312 | The walk notes for every leaf its code and length; it gives up exactly when a code is longer than CODE_BITS |
| HuffmanInit.OneLeafEach | src/comp_h.c:408-529 | In the finished tree every byte has exactly one leaf |
| HuffmanInit.InitCompress | src/comp_h.c:326-548 | Set-up as a whole: an optimal tree squashed, fixed and grafted, with its tables, or an abort exactly because some code is too long |
| HuffmanCodec.NeededLength | src/comp_h.c:90-94 | The length computed beforehand is that of the code of the text and one byte of ending |
| HuffmanCodec.StageFits | src/comp_h.c:36-45 | With at most seven bits waiting and a code of at most 25 bits the staging word stays below 2^32 |
| HuffmanCodec.PutCode | src/comp_h.c:103-105 | Putting a code on the stage appends its bits and stays below 2^32 |
| HuffmanCodec.Flush | src/comp_h.c:106-111 | Moving full bytes out of the stage loses no bit |
| HuffmanCodec.TextCompress | src/comp_h.c:82-124 | Exactly the computed number of bytes is written, and they are the codes of the text bit by bit, then zeros |
| HuffmanDecode.EncodedRuns | src/comp_h.c:256-282 | Across code boundaries too there are never more than seven zeros in a row, and at most two at the end |
| HuffmanDecode.EightNotZero | src/comp_h.c:482-529 | So no eight bits of the code of a text are all zero |
| HuffmanDecode.StoredText | src/attrib.c:802-806 | Cutting the compressed bytes at their first zero, as storing them as a C string does, loses nothing but zeros |
| HuffmanStore.StoredExactly | src/attrib.c:802-806 | The store takes the cut bytes of a text if and only if its code has no one behind 16383 bytes |
| HuffmanStore.AllStoredExactly | src/chunk.c:2231-2237 | Every text that fits a buffer can be stored if and only if no byte has a code of more than sixteen bits |
| HuffmanDecode.DecodesRest | src/comp_h.c:130-194 | From the start of any remaining text the decoder writes that text, then at most the terminator, and never follows a missing child |
| HuffmanDecode.TextUncompress | src/comp_h.c:168-194 | The decoding loop over the tree in place computes the decoder answer |
| HuffmanDecode.SetUpTree | src/comp_h.c:408-529 | Set-up always makes a tree the codec can rely on, for any frequencies |
| HuffmanDecode.CompressedComesBack | src/comp_h.c:82-194 | Round trip: every text that fits a buffer, compressed, cut at its first zero, closed by one zero and uncompressed, comes back |
| HuffmanDecode.RoundTrip | src/comp_h.c:82-194 | The same for the methods run one after the other, from arbitrary frequencies: set-up stops exactly if the squashed optimal tree with its ones has a code longer than CODE_BITS, and otherwise the text comes back |
| AttrNames.UnderIsPrefix | src/attrib.c:122-141 | What is read off the characters of a name, a root followed by a backtick, is that the branches of the root come first among its branches |
| AttrNames.CompareAttrNames | src/sort.c:539-578 | The comparing loop orders names branch by branch, the name that ends first going first |
| AttrNames.ComparedExactly | src/sort.c:539-578 | One name goes before another if and only if it is a branch over it or the first branches in which they differ are in the order of the collation |
| AttrNames.SiblingsCollated | src/sort.c:539-578 | Names without branches, and branches of one name, stand in the order of the collation |
| AttrNames.BeforeTotal | src/sort.c:539-578 | Two different names are ordered in exactly one way |
| AttrNames.BeforeTransitive | src/sort.c:539-578 | The order is transitive |
| AttrNames.ByteOrderIsCollation | src/sort.c:539-578 | The order of bytes is a collation as the theorems about names ask for, so they speak of an order that exists |
| AttrNames.BranchFirst | src/sort.c:539-578 | A branch comes before everything under it |
| AttrNames.BranchTogether | src/sort.c:539-578 | What is under a branch stands together, with nothing else between |
| AttrThing.Thing.FindAtrInList | src/attrib.c:215-253 | Finds the first attribute of that name from a place on, or that there is none |
| AttrThing.Thing.FindAtrPos | src/attrib.c:261-275 | Finds the attribute, or the one place where it keeps the list sorted |
| AttrThing.Thing.AtrSubBranch | src/attrib.c:122-141 | Finds something under an attribute exactly when there is something, and it is the next in the list |
| AttrThing.Thing.AtrSubBranchPrev | src/attrib.c:150-173 | The attribute in front of the first child is always the branch itself |
| AttrThing.Thing.CanWriteAttr | src/attrib.c:461-482 | Says whether neither the attribute nor any branch above it keeps the player from writing, though every search goes on from the branch found before |
| AttrThing.Thing.CanCreateAttr | src/attrib.c:525-577 | Checks the new attribute and every branch above it, there or still to be made, and that the count with all the missing branches stays within the limit |
| AttrThing.Thing.CreateAtr | src/attrib.c:587-617 | Links a new attribute in at its sorted place and counts it |
| AttrThing.Thing.MakeBranches | src/attrib.c:746-777 | Makes exactly the missing branches of a name and marks all its branches as roots, though it searches from the old head of the list |
| AttrRules.GoodNameMeans | src/attrib.c:89-106 | A name is good if and only if it has at most 1024 characters, all of them good, and no branch of it is empty |
| AttrThing.Thing.AtrAdd | src/attrib.c:717-815 | Each code by conditions on the name and the list: a bad name, a safe attribute, something at the name or above it that stops the player, too many with the missing branches counted, or success; on an error nothing changed; on success the name holds the value, belongs to the owner of the player, is marked as command or listener exactly by the first character and has its other flags as before or by default, branches that were missing are there, blank and marked, and all else is as before; the limit is kept |
| AttrRules.AddedTree | src/attrib.c:717-815 | Adding keeps every branch of a present name present and every root marked |
| AttrRules.AddedExact | src/attrib.c:717-815 | The root marks stay exact if and only if no new attribute is given the root flag in its own flags |
| AttrRules.MarkGivenToLeaf | src/attrib.c:500-508 | A concrete case where they do not: a new leaf given the root flag |
| AttrList.SurvivesSame | src/attrib.c:824-867 | Taking out what does not survive changes nobody else's fate: the question can be asked while the list is being cut |
| AttrThing.Thing.AtrClearChildren | src/attrib.c:824-867 | The recursion, which visits leftovers of a sub-branch again, takes out exactly what is under the branch and has nothing unwritable at or under it; says whether all went |
| AttrThing.Thing.SettleParent | src/attrib.c:914-930 | The branch above loses its mark exactly when nothing is under it any more |
| AttrWipe.ClearRefused | src/attrib.c:435-480 | Who is stopped: God by nothing, anybody else by an internal or safe attribute at the name or above it, and who is no wizard by one for wizards or one that somebody else has locked |
| AttrThing.Thing.RealAtrClr | src/attrib.c:879-935 | Each code by conditions on the list: not there; safe; something at the name or above it that stops the player; a tree, for a clear exactly if something is under it where marks are exact, for a wipe exactly if something under it stops the player; or success, and then nothing at the name or under it is left. On an error the list is as it was |
| AttrThing.Thing.AtrClr | src/attrib.c:946-949 | Clears an attribute that is no branch, by the same conditions; otherwise the list is as it was |
| AttrThing.Thing.WipeAtr | src/attrib.c:960-963 | Clears a branch and what is under it, by the same conditions |
| AttrWipe.WipeExact | src/attrib.c:824-935 | Wipe is exact, from what the list holds: where nothing at the name or above it stops the player, what is under it stays if and only if something that stops the player is at it, under it or between it and the name; the branch stays if and only if there is such a thing; all others keep everything but the mark of a branch above that has nothing under it any more |
| AttrWipe.ClearExact | src/attrib.c:879-935 | Clear is exact: the attribute goes, all others keep everything but that mark |
| AttrWipe.ClearedTree | src/attrib.c:879-935 | Clearing and wiping keep every branch of a present name present and every root marked |
| AttrWipe.ClearedExact | src/attrib.c:879-935 | They keep the marks exact: no other branch can lose its last leaf unnoticed |
| AttrThing.Thing.Perform | src/attrib.c:717-963 | Along every run of adds, clears and wipes the list is strictly sorted without duplicates, the count is its length and within the limit, every branch of a present name is present, and the root mark is exact |
| BufferQueue.SkipsFewest | src/bufferq.c:85-94 | The messages that go are the fewest oldest ones whose bytes make up what is needed, or all |
| BufferQueue.StepKeeps | src/bufferq.c:52-179 | Each call keeps the bytes within the size and the messages a suffix of what was held and taken in; a new message that fits the buffer at all is whole at the end |
| BufferQueue.RunKeeps | src/bufferq.c:52-179 | Through any run the queue holds, in order and within its size, a suffix of the messages taken in |
| BufferQueue.PostedExactly | src/bufferq.c:52-79 | What posting leaves: the same queue if the message takes more bytes than there are; all and the message if there is room; and otherwise the oldest messages go, no more than it takes for as many bytes as the new one needs, or all |
| BufferQueue.ResizedExactly | src/bufferq.c:154-179 | What a change of size leaves: messages go only when the buffer shrinks and they do not all fit, no more of the oldest than have to |
| BufferBytes.LineFields | src/bufferq.c:206-220 | The fields read back from a line are those of the message |
| BufferBytes.SkipOne | src/bufferq.c:88-92 | The length read at a line start leads to the next line |
| BufferBytes.BufferQ.ShiftBufferQ | src/bufferq.c:80-113 | Moving the bytes down leaves the lines of the remaining messages; the case of too little space never comes |
| BufferBytes.BufferQ.AddToBufferQ | src/bufferq.c:52-76 | Copying the fields in leaves the buffer standing for the queue with the message posted |
| BufferBytes.BufferQ.ReallocateBufferQ | src/bufferq.c:154-179 | Changing the size leaves the buffer standing for the resized queue, with or without memory for it |
| BufferBytes.BufferQ.IterBufferQ | src/bufferq.c:198-223 | Iteration gives back the messages one by one, and then none |
| BufferBytes.BufferQ.BufferQLines | src/bufferq.c:243-259 | The number of messages counted in the bytes is the number kept |
| BufferBytes.BufferQ.Perform | src/bufferq.c:52-179 | After any run of adds and resizes the bytes stand for the queue as it is meant to be, a suffix of the accepted messages, never past the size |
| WordTable.ExpandedLater | src/comp_w.c:293-334 | Compressed text means the same in every later state of the table |
| WordTable.ExpandedCode | src/comp_w.c:190-222 | The two bytes put out for a place stand for its word and have no zero |
| WordTable.AddedWord | src/comp_w.c:197-225 | A new word goes to a free place whose low byte is not zero, and leaves all others |
| WordCodec.HashFn | src/comp_w.c:387-397 | The loop computes the masked hash of a word |
| WordRules.HashIsBase33 | src/comp_w.c:387-397 | The hash is the bytes of the word as digits to the base 33, modulo 32768, wherever the arithmetic wraps round |
| WordLaws.PutFresh | src/comp_w.c:171-227 | From an empty table a word of at least three bytes goes to the place of its hash, or one further on, and two bytes are put out for it |
| WordRules.ProbeReach | src/comp_w.c:186-200 | Probing goes from place to place, over other words and over free places that may not be used, and gives up after twenty steps or at the end of the table |
| WordRules.PlaceFacts | src/comp_w.c:186-200 | Probing ends at the word, as far as C strings are compared, at a free place that may be used, or without one; never at a free place 0xXX00 |
| WordCodec.Codec.Probe | src/comp_w.c:186-200 | The probing loop finds the place that the specification names: from the hash on, the word, the first free place that may be used, or neither within COLLISION_LIMIT steps |
| WordCodec.Codec.OutputPreviousWord | src/comp_w.c:171-227 | Table and output afterwards are what putting a word means: short words and words without a place go out as they are, others as two bytes, and a new word joins the table |
| WordRules.PutFacts | src/comp_w.c:171-227 | From any table, putting a word out leaves every word at its place and no word at a place that may not be used, and writes no more bytes than the word has |
| WordCodec.Codec.TextCompress | src/comp_w.c:241-276 | For any text the loop leaves the table and returns the text that the specification gives |
| WordRules.CompressedFacts | src/comp_w.c:241-276 | For any text and table the output is never longer than the text and the table only grows |
| WordLaws.CompressedStandsFor | src/comp_w.c:241-334 | From a clean table a text without 0x80, and from a sound table a text whose letters are letters before stripping too, stands for itself without its high bits |
| WordLaws.CleanExactly | src/comp_w.c:241-334 | From a clean table a text comes back without its high bits if and only if it has no byte 0x80 |
| WordLaws.CompressedSound | src/comp_w.c:171-276 | Where stripping the high bit keeps letters, any text whatever leaves every zero-padded word of the table all letters in front of its zeros |
| WordLaws.SevenBitsComeBack | src/comp_w.c:241-334 | With a safe alphabet every 7-bit text comes back, from every table that is sound where letters are kept, in every later state of the table |
| WordLaws.LostBehindZero | src/comp_w.c:186-222 | A lost 7-bit text for every unsafe alphabet: after a text with 0x80 behind a letter that strips to none, a 7-bit text finds the word with the zero and loses what follows it |
| WordLaws.SevenBitsExactly | src/comp_w.c:241-334 | From the empty table, through any texts before and any after, every 7-bit text that fits a buffer comes back if and only if the alphabet is safe: stripping keeps letters, or no 7-bit byte is a letter |
| WordTable.StrippedSame | src/comp_w.c:249-262 | A text without its high bits is the text exactly when it is 7-bit |
| WordTable.StrippedZero | src/comp_w.c:249-262 | Only the byte 0x80 becomes a zero |
| WordCodec.Codec.TextUncompress | src/comp_w.c:293-334 | The loop reads exactly what compressed text stands for, or stops on a word that is not there |
| WordCodec.Codec.Session | src/comp_w.c:241-334 | Texts of any kind compressed one after the other; wherever the alphabet is safe, every 7-bit one among them comes back from the table as it is in the end |
| SfmtRecursion.LeftHalves | src/SFMT.c:198-212 | The two halves put together are the left shift of the 128-bit word |
| SfmtRecursion.RightHalves | src/SFMT.c:155-169 | The two halves put together are the right shift of the 128-bit word |
| SfmtRecursion.ShiftedLeft | src/SFMT.c:198-212 | Shifting the first operand moves eight bits from each word to the next |
| SfmtRecursion.SecondOperand | src/SFMT.c:251-258 | The second operand comes in shifted by eleven, under the four masks |
| SfmtRecursion.ThirdOperand | src/SFMT.c:251-258 | The third comes in shifted to the right by eight over all words |
| SfmtRecursion.FourthOperand | src/SFMT.c:251-258 | The fourth comes in shifted to the left by eighteen in each word |
| SfmtRecursion.KnownAnswer | src/SFMT.c:251-258 | A known answer of the formula |
| Sfmt.StreamRecursion | src/SFMT.c:269-286 | Every word of the stream comes from those 156, 34, two and one before it |
| Sfmt.TermFrom | src/SFMT.c:269-286 | The stream goes on the same from any stretch of N of its terms |
| Sfmt.RenewOne | src/SFMT.c:269-286 | What is read for a word gives its next term although part of it is overwritten already |
| Sfmt.Generator.GenRandAll | src/SFMT.c:269-286 | In place the state becomes the next N terms |
| Sfmt.Generator.GenRand32 | src/SFMT.c:446-457 | Gives the next number of the stream and moves on by one |
| Sfmt.FillOne | src/SFMT.c:296-327 | In every phase of the loop what is read gives the next term |
| Sfmt.Generator.GenRandArray | src/SFMT.c:296-327 | The array becomes the next terms, the state the last N of them, for any size from N on |
| Sfmt.FilledState | src/SFMT.c:311-326 | From the last N terms the stream goes on behind the array |
| Sfmt.Generator.FillArray32 | src/SFMT.c:521-530 | As many numbers of the stream as asked for, and later numbers go on behind them |
| Sfmt.Generator.DrawArray | src/SFMT.c:446-457 | As many single draws give the same stretch of the stream |
| Sfmt.BulkIsStepwise | src/SFMT.c:521-530 | Bulk equals stepwise: the same numbers from the same state, and the same numbers ever after |

## Left out

- LockParser.Parser.PA: folds the levels of the grammar for `@`, `=`, `+` and `$`, which differ only in the mark they look for, into one; the messages about what was not found are not modelled.
- LockSpelling: a lock without bytes, which is printed as `*UNLOCKED*`; a round trip is claimed for objects shown by number, not by name or as `me`.
- LockPipeline.SaveAndLoad: the file a database is written to and the quoting of strings in it.
- LockMachine.Machine.EvalBoolexp: locks are found in one map; the search for a lock on the parents of an object is not modelled, nor are the attribute, channel, address, power and list tests, which are oracles.
- LockMachine.Machine.RunBytecode: the branch for an unknown opcode, which compiled code cannot reach, and R values other than 0 and 1.
- LockPipeline.CompiledAnswer: where a `=x|+x` pair was merged the tests of the simplified tree are run, one for two.
- LockCompiler: failing allocation, and the chunk store but for the longest piece it takes.
- HuffmanBuild.BuildTree: the last merge, of the finished tree with the terminator, whose result is never used; frequencies beyond the range of a `long`; counting and adjusting the frequencies of a sample.
- HuffmanInit: the loops down the left edge are written as recursion on the node below; the staging word and the codes are numbers, `|` on them is addition, and that no bits overlap is proved.
- HuffmanDecode.TextUncompress: the output is a growing value, its limit of BUFFER_LEN is kept by the code.
- AttrThing: modification times, log lines, the name left behind for an error message, failing allocation and compression, and the chunk store; that an attribute can be too long for it is stated of the codec (`HuffmanStore.StoredExactly`) and not of the list.
- AttrThing.Thing.AtrAdd: an `atr_new_add` with repair of missing roots, and other calls that change flags directly, are not modelled.
- AttrNames.BeforeTotal: a locale whose collation finds two different strings equal.
- BufferBytes.BufferQ.AddToBufferQ: the cached type of the last message, which is narrowed to a `char`.
- BufferBytes: `bufferq_blocks`, freeing, and calls without a queue.
- WordCodec.Codec.TextUncompress: the output is a growing value; failing allocation and statistics are left out.
- Sfmt: seeding, certification of the period, 64-bit draws, SIMD and big-endian variants; an array of 32-bit numbers is seen as the array of 128-bit words it is cast to.
- `src/bsd.c`, `src/bflags.c`, `src/access.c`, `src/atr_tab.c`, `src/cmds.c` and the rest of the server: input and output, tables and dispatch, which would add only easy members.
