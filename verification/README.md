# Proofs about the native hooking engine

The library under `app/src/main/cpp` embeds xHook 1.1.11, which overwrites the slots through which loaded libraries
call a function, and uses it to veto access to the microphone. This project models its hard parts in Dafny and proves
what they promise. Nothing here executes the original program.

- `RbTree.dfy` has the red-black tree of `tree.h` as node objects with left, right, parent and colour fields. The
  methods do the writes of the macros; the halves for left and right children are written out as they are there. A
  ghost sequence holds the nodes from left to right, and ghost positions and black heights tie it to the pointers.
- `SplayTree.dfy` has the splay tree of `tree.h`, with the dummy node of the top-down splay. `SplayShape.dfy` keeps its
  shape as numbers, in which the steps of a splay are proved first. A key is an integer, which stands for any total
  order that `cmp` can be; the tree of `xh_core.c` compares pathnames, and there the order is `strcmp` (`CStrings.dfy`).
- `Registry.dfy`, `MapLines.dfy` and `Core.dfy` have the engine of `xh_core.c`: the hook and ignore lists, the path
  filter, and one refresh over the lines of the memory map. `Calls.dfy` says what a whole sequence of calls should lead
  to, and `Core.dfy` proves that the engine leads there.
- `RefreshProtocol.dfy` has the locking between callers, the refresh thread and `xh_core_clear` as a state machine
  with one step for each lock, unlock, signal, wait, join, and read or write of a flag.
- `Words.dfy`, `Sleb128.dfy`, `PackedRelocs.dfy` and `PlainRelocs.dfy` have machine words, the number decoder and the
  two iterators over relocations of `xh_elf.c`; `ElfHash.dfy` has the symbol lookups and `ElfHook.dfy` the hook itself.
- `MemProtect.dfy` has the protection query and the page arithmetic of `xh_util.c`.
- `MicVeto.dfy` has the microphone veto of `rp_pointer_manager.cpp` and `rp_nativehook_audio.c`.
- `Arithmetic.dfy`, `Errno.dfy` and `Wrappers.dfy` have powers of two, the error numbers and an option type.

Words are natural numbers below a power of two and wrap where the source does; `bits` is the word size.

Places where the code does not do what one might expect, each with the exact condition:

- The plain iterator hands out record 1 up to the one past the end, never record 0, so the entries of a table are
  handed out only where the table is empty (`PlainRelocs`). The hook theorems speak of the records handed out.
- The path filter looks at the first matching hook only, so it can turn away a library with applicable hooks
  (`Registry.TurnedAwayThoughHookable`).
- Lifting the veto starts tracked streams that the app itself has paused (`MicVeto.LiftRestoresStreamIff`).
- An engine remembers only the record interface that was obtained from it last; an earlier one escapes the veto
  (`MicVeto.SecondInterfaceEscapes`). The condition under which the veto silences all of them is
  `MicVeto.VetoSilencesIff`.
- While the refresh thread waits, `do` is 0 and `running` is 1, except just between a change of either and the signal
  for it (`RefreshProtocol.SafetyOverRuns`, `RefreshProtocol.SleepsWithSomethingToDo`).
- The protection query takes the end of the range modulo the word size; where that is not behind the start, it looks
  at the first byte only (`MemProtect.RightAnswersIff`). For aligned words this does no harm, as the lines of a memory
  map are whole pages (`MemProtect.WholePagesAnswerRightly`).

## Model

| member | source | states |
|---|---|---|
| `RbTree.Tree.RotateLeft` | app/src/main/cpp/tree.h:343-361 | The real pointer writes keep the in-order sequence and every parent link; only the two nodes, one grandchild and the link from above change, and each by what is stated for it |
| `RbTree.Tree.RotateRight` | app/src/main/cpp/tree.h:363-381 | The mirror image |
| `RbTree.Tree.FixRedSiblingLeft` | app/src/main/cpp/tree.h:459-464 | A red sibling is rotated away: the new sibling exists (no NULL dereference) and is black, and the element is still the only place that is one black node short |
| `RbTree.Tree.FixBlackNephewsLeft` | app/src/main/cpp/tree.h:465-471 | With two black nephews the recoloured sibling moves the missing black node up to the parent |
| `RbTree.Tree.FixNearNephewLeft` | app/src/main/cpp/tree.h:473-482 | A red near nephew becomes the new sibling, black, with a red far child |
| `RbTree.Tree.FixFarNephewLeft` | app/src/main/cpp/tree.h:483-489 | The last rotation repairs the black heights everywhere |
| `RbTree.Tree.FixRedSiblingRight` | app/src/main/cpp/tree.h:492-497 | The mirror image for a right child |
| `RbTree.Tree.FixBlackNephewsRight` | app/src/main/cpp/tree.h:498-504 | The mirror image for a right child |
| `RbTree.Tree.FixNearNephewRight` | app/src/main/cpp/tree.h:506-515 | The mirror image for a right child |
| `RbTree.Tree.FixFarNephewRight` | app/src/main/cpp/tree.h:516-522 | The mirror image for a right child |
| `RbTree.Tree.RemoveColorStepLeft` | app/src/main/cpp/tree.h:458-490 | One turn of the fix-up loop keeps its invariant and either finishes or climbs |
| `RbTree.Tree.RemoveColorStepRight` | app/src/main/cpp/tree.h:491-524 | The mirror image |
| `RbTree.Tree.RemoveColor` | app/src/main/cpp/tree.h:452-528 | From a tree that is one black node short at one place, the loop ends in a red-black tree with the same nodes in the same order |
| `RbTree.Tree.Unlink` | app/src/main/cpp/tree.h:535-538 | Takes out a node with at most one child: the order loses exactly this node, and what its colour leaves short is known |
| `RbTree.Tree.RemoveInner` | app/src/main/cpp/tree.h:539-577 | A node with two children is replaced by its successor in order, which takes over its links and colour; what the colour of the successor leaves short is known |
| `RbTree.Tree.Remove` | app/src/main/cpp/tree.h:530-595 | RB_REMOVE on any red-black tree and any of its nodes removes exactly that node, keeps the order and the identity of all others, and ends in a red-black tree; no NULL is dereferenced on the way |
| `RbTree.Tree.InsertRedUncleLeft` | app/src/main/cpp/tree.h:417-422 | Recolouring for a red uncle moves the only possible red-red edge two levels up |
| `RbTree.Tree.InsertStraightenLeft` | app/src/main/cpp/tree.h:423-428 | The inner grandchild case becomes the outer one |
| `RbTree.Tree.InsertLiftParentLeft` | app/src/main/cpp/tree.h:429-430 | The rotation at the grandparent ends with a red-black tree |
| `RbTree.Tree.InsertRedUncleRight` | app/src/main/cpp/tree.h:433-438 | The mirror image |
| `RbTree.Tree.InsertStraightenRight` | app/src/main/cpp/tree.h:439-444 | The mirror image |
| `RbTree.Tree.InsertLiftParentRight` | app/src/main/cpp/tree.h:445-446 | The mirror image |
| `RbTree.Tree.InsertColor` | app/src/main/cpp/tree.h:408-450 | From a tree whose only fault is a red node under a red parent (or a red root), the upward loop ends in a red-black tree with the same nodes in the same order |
| `RbTree.Tree.Descend` | app/src/main/cpp/tree.h:604-614 | The descent finds the node with the key, or the place where the new node keeps the order ascending |
| `RbTree.Tree.Insert` | app/src/main/cpp/tree.h:598-626 | RB_INSERT answers the node that has the key and changes nothing, or answers NULL and adds exactly the new node, at the one position that keeps the tree sorted and red-black |
| `RbTree.Tree.Find` | app/src/main/cpp/tree.h:629-644 | Finds the node exactly if there is one, with at most as many comparisons as the tree is high |
| `RbTree.Tree.NFind` | app/src/main/cpp/tree.h:646-665 | The least node not below the key: everything before it is smaller, within the same number of comparisons |
| `RbTree.Tree.Next` | app/src/main/cpp/tree.h:668-687 | The in-order successor, or NULL |
| `RbTree.Tree.Prev` | app/src/main/cpp/tree.h:690-709 | The in-order predecessor, or NULL |
| `RbTree.Tree.NeighboursUndo` | app/src/main/cpp/tree.h:668-709 | Predecessor and successor undo each other |
| `RbTree.Tree.MinMax` | app/src/main/cpp/tree.h:711-724 | The first or the last node |
| `RbTree.Tree.DrainStep` | app/src/main/cpp/tree.h:748-751 | The successor saved before RB_REMOVE is the first node after it, although nodes have been relinked |
| `RbTree.Tree.Drain` | app/src/main/cpp/xh_core.c:448-456 | RB_FOREACH_SAFE with RB_REMOVE visits every node once, in the order of the tree, and leaves an empty tree |
| `RbTree.Tree.WalkIsOrder` | app/src/main/cpp/tree.h:313-326 | The recorded sequence is what a walk along the pointers gives, and holds all nodes |
| `RbTree.Tree.HeightBelow` | app/src/main/cpp/tree.h:54-62 | Below every node the height is at most twice the black height, and the black height is logarithmic in the number of nodes |
| `RbTree.Tree.HeightIsLogarithmic` | app/src/main/cpp/tree.h:60-61 | A tree of n nodes has height at most 2 lg (n + 1) |
| `RbTree.Tree.OrderHoldsEachNodeOnce` | app/src/main/cpp/tree.h:738-741 | The sequence holds each node once |
| `RbTree.Tree.SameNameSameNode` | app/src/main/cpp/xh_core.c:81-84 | No two nodes have the same pathname |
| `CStrings.StrcmpAntisymmetric` | app/src/main/cpp/xh_core.c:81-84 | The comparison answers 0 for equal strings only, and changes its sign with the order of its arguments |
| `CStrings.StrcmpIsLexicographic` | app/src/main/cpp/xh_core.c:81-84 | The first difference decides, and a string comes before its continuations |
| `CStrings.StrcmpTransitive` | app/src/main/cpp/xh_core.c:81-84 | It is transitive |
| `SplayShape.RotateRight` | app/src/main/cpp/tree.h:89-93 | A rotation between the two cuts keeps the numbering of the nodes and the roots of the cut-off parts |
| `SplayShape.RotateLeft` | app/src/main/cpp/tree.h:95-99 | The mirror image |
| `SplayShape.LinkLeft` | app/src/main/cpp/tree.h:101-105 | The root and its right subtree become the inner edge of the right part |
| `SplayShape.LinkRight` | app/src/main/cpp/tree.h:107-111 | The root and its left subtree become the inner edge of the left part |
| `SplayShape.Assemble` | app/src/main/cpp/tree.h:113-118 | Hanging the subtrees of the root on the inner edges and the parts under the root gives one tree over the same nodes |
| `SplayShape.Nested` | app/src/main/cpp/tree.h:77-84 | Subtrees stay on their side of every node above them |
| `SplayTree.Tree.RotateRight` | app/src/main/cpp/tree.h:89-93 | The pointer writes are that rotation |
| `SplayTree.Tree.RotateLeft` | app/src/main/cpp/tree.h:95-99 | The mirror image |
| `SplayTree.Tree.LinkLeft` | app/src/main/cpp/tree.h:101-105 | The pointer writes are that cut, with the dummy node standing in for an empty part |
| `SplayTree.Tree.LinkRight` | app/src/main/cpp/tree.h:107-111 | The mirror image |
| `SplayTree.Tree.Assemble` | app/src/main/cpp/tree.h:113-118 | The pointer writes give a whole tree with the root on top |
| `SplayTree.Tree.StepLeft` | app/src/main/cpp/tree.h:219-228 | A turn ends where there is nothing left of the root, or moves the cut; a turn over two levels first hangs the root under its left child |
| `SplayTree.Tree.StepRight` | app/src/main/cpp/tree.h:229-238 | The mirror image |
| `SplayTree.Tree.Splay` | app/src/main/cpp/tree.h:210-243 | The top-down splay terminates, keeps the nodes and their order, and leaves at the root the node with the key or else its in-order predecessor or successor |
| `SplayTree.NoKeyAtRoot` | app/src/main/cpp/tree.h:134-136 | So the key is in the tree exactly if the root has it |
| `SplayTree.Tree.Find` | app/src/main/cpp/tree.h:129-138 | Finds the node with the key exactly if there is one; it is then the root |
| `SplayTree.Tree.Insert` | app/src/main/cpp/tree.h:166-187 | SPLAY_INSERT answers the node that has the key and keeps the nodes, or makes the new node the root and otherwise keeps the sequence |
| `SplayTree.Tree.Remove` | app/src/main/cpp/tree.h:189-208 | SPLAY_REMOVE takes out exactly the node with the key; it answers its argument, not the node |
| `SplayTree.Tree.ReplaceRoot` | app/src/main/cpp/tree.h:198-202 | The second splay brings up the last node of the left subtree, whose right link is free for the right subtree |
| `SplayTree.Tree.MinMax` | app/src/main/cpp/tree.h:248-279 | The least or the greatest node comes to the root |
| `SplayTree.Tree.Next` | app/src/main/cpp/tree.h:140-152 | The in-order successor of a node of the tree, which comes to the root |
| `Registry.HookLoop` | app/src/main/cpp/xh_core.c:251-284 | The hooks for which xh_elf_hook is called, in order, are exactly those that match and are not ignored |
| `Registry.SelectedAreApplicable` | app/src/main/cpp/xh_core.c:260-283 | A hook is called exactly if it is registered, matches the path, and no matching ignore entry names its symbol or every symbol |
| `Registry.SelectedInOrder` | app/src/main/cpp/xh_core.c:260-283 | Spelled out, with order and number: they are the hooks at exactly the places where the expression matches and no matching ignore entry has the symbol or none |
| `Registry.NothingSelected` | app/src/main/cpp/xh_core.c:269-270 | A matching ignore entry without a symbol silences all hooks, also those before it in the list |
| `Registry.SelectedIgnoresOrder` | app/src/main/cpp/xh_core.c:265-278 | Order and repetition of ignore entries do not matter |
| `Registry.Filter` | app/src/main/cpp/xh_core.c:362-386 | A path is accepted exactly if its first matching hook applies, for the break leaves the outer loop |
| `Registry.AcceptsMeans` | app/src/main/cpp/xh_core.c:362-386 | Spelled out: the first hook whose expression matches meets no matching ignore entry with its symbol or none |
| `Registry.AcceptedIsHooked` | app/src/main/cpp/xh_core.c:360-386 | An accepted path gets at least one hook |
| `Registry.TurnedAwayThoughHookable` | app/src/main/cpp/xh_core.c:379-383 | The filter turns a path with applicable hooks away exactly if the first matching hook is ignored and a later one applies |
| `Registry.FilterIsStricterThanHooking` | app/src/main/cpp/xh_core.c:379-383 | Two hooks and one ignore entry for which that happens |
| `MapLines.RefreshedIsFirst` | app/src/main/cpp/xh_core.c:399-401 | A path is in the index exactly if a line is taken up for it, with the base of the first such line |
| `MapLines.RefreshedMeans` | app/src/main/cpp/xh_core.c:330-401 | Spelled out: a path is in the index exactly if some line is readable, private, at offset 0 and of a file with the ELF magic, has the path as its text with or without a newline behind it, and the path is not empty, does not start with a bracket, and is accepted; its base is that of the first such line |
| `MapLines.RunsAreStalePaths` | app/src/main/cpp/xh_core.c:411-416 | Exactly the paths that are new or have moved are hooked, each once, at the new base |
| `MapLines.RunsInOrder` | app/src/main/cpp/xh_core.c:330-444 | Libraries are hooked in the order in which they are announced |
| `MapLines.LastRunAfterRefresh` | app/src/main/cpp/xh_core.c:394-443 | After a refresh the last run for every library in the index is one at its new base, whether or not this refresh made it |
| `Core.TakeOut` | app/src/main/cpp/xh_core.c:397 | RB_REMOVE as an operation on the map from pathnames to entries |
| `Core.PutIn` | app/src/main/cpp/xh_core.c:401 | RB_INSERT as an operation on that map |
| `Core.Move` | app/src/main/cpp/xh_core.c:397-409 | An entry that changes trees is never met in the new one: the branch for a repeated path cannot be reached |
| `Core.Engine.Hook` | app/src/main/cpp/xh_core.c:286-305 | Places exactly the hooks that apply to the library, and is recorded with its base and the lists in force |
| `Core.PathOf` | app/src/main/cpp/xh_core.c:334-358 | The checks of a line one after the other, and its text without the newline |
| `Core.Engine.Rehook` | app/src/main/cpp/xh_core.c:410-416 | An entry that has changed trees is hooked again exactly if its base changed, and then has the new base |
| `Core.Engine.TakeKnown` | app/src/main/cpp/xh_core.c:394-417 | A line for a known library: one entry moves, and is hooked again exactly if its base changed |
| `Core.Engine.TakeUnknown` | app/src/main/cpp/xh_core.c:418-443 | A line for another path: a new entry is made and hooked, or freed again where the path has been seen |
| `Core.Engine.ReadLine` | app/src/main/cpp/xh_core.c:330-444 | One line: if it announces a library, the library is taken up, and hooked if it is new or has moved; if not, nothing changes |
| `Core.Engine.ReadLines` | app/src/main/cpp/xh_core.c:330-444 | The line loop: the new tree and the hook runs are those of MapLines, and every entry is accounted for |
| `Core.Engine.Finish` | app/src/main/cpp/xh_core.c:447-459 | What is left of the old tree is freed, and the new tree takes its place |
| `Core.Engine.RefreshImpl` | app/src/main/cpp/xh_core.c:307-467 | After a refresh the index has exactly the paths that some line announces, with the base of the first such line; the runs of xh_core_hook grow by exactly those of new or moved paths, and every old or new entry is in the index or freed, once; where the maps cannot be opened nothing changes |
| `Core.Engine.Register` | app/src/main/cpp/xh_core.c:140-179 | Adds to the hook list exactly before the first refresh, with the arguments and the expression in order, and changes nothing else |
| `Core.Engine.Ignore` | app/src/main/cpp/xh_core.c:181-224 | Adds to the ignore list under the same conditions |
| `Core.Engine.InitOnce` | app/src/main/cpp/xh_core.c:500-531 | Only the first call tries to install the handler, and its outcome lasts |
| `Core.Engine.Refresh` | app/src/main/cpp/xh_core.c:558-584 | State and answer are those of Calls; every entry is in the index or freed, once; after an error, or without maps, no entry has changed |
| `Core.Engine.Clear` | app/src/main/cpp/xh_core.c:587-650 | Empties tree, lists and flags together, as in a new engine, and frees every entry once |
| `Core.Engine.Perform` | app/src/main/cpp/xh_core.c:140-650 | Any call takes the engine to the state, and gives the answer, that Calls has for it |
| `Core.Execute` | app/src/main/cpp/xh_core.c:140-650 | Over every sequence of calls, all answers and the final state (lists, flags, index with base addresses, and every run of xh_core_hook since the last clear) are those of Calls.AfterAll, and the last run for each entry of the index hooked it at its present base with the present lists |
| `Calls.AfterIsSound` | app/src/main/cpp/xh_core.c:394-443 | Whatever call comes, the last run for every library in the index still has its present base and the present lists: libraries that come back, or move away and back, have been hooked again |
| `Calls.SessionsAreSound` | app/src/main/cpp/xh_core.c:140-650 | So it is after every sequence of calls |
| `Calls.ListsAreFrozen` | app/src/main/cpp/xh_core.c:148-152 | From the first refresh to the next clear no call changes the lists |
| `Calls.ListsFollowCalls` | app/src/main/cpp/xh_core.c:140-224 | Lists and flags follow from the calls alone: the accepted entries since the last clear, in order, before the first refresh |
| `Calls.RefreshMeans` | app/src/main/cpp/xh_core.c:307-467 | What a refresh does to a session, spelled out: index, bases, and exactly which libraries are hooked |
| `RefreshProtocol.InitInv` | app/src/main/cpp/xh_core.c:125-137 | The invariant of the locking protocol holds at the start |
| `RefreshProtocol.NextInv` | app/src/main/cpp/xh_core.c:469-650 | Every step of every thread keeps it: who owns which mutex, the life of the refresh thread, and that no wake-up is lost |
| `RefreshProtocol.FollowsInv` | app/src/main/cpp/xh_core.c:469-650 | So it holds in every state of every interleaving, for any number of callers |
| `RefreshProtocol.SafetyOverRuns` | app/src/main/cpp/xh_core.c:469-611 | In every reachable state at most one thread refreshes and none while the index is wiped, whoever asks for core_mutex does not hold refresh_mutex, and while the refresh thread sleeps there is nothing to do and it is to run on, except exactly while another thread is between changing that and its signal |
| `RefreshProtocol.InvIsSafe` | app/src/main/cpp/xh_core.c:469-611 | The invariant implies those properties |
| `RefreshProtocol.StepsRunOut` | app/src/main/cpp/xh_core.c:475-495 | Every step of a call or thread under way lowers a bound on the steps to come |
| `RefreshProtocol.NeverStuck` | app/src/main/cpp/xh_core.c:469-611 | No deadlock: unless all is quiet, some thread can take its next step |
| `RefreshProtocol.QuietIsServed` | app/src/main/cpp/xh_core.c:564-575 | When all is quiet no accepted request waits |
| `RefreshProtocol.NearerWithEachStep` | app/src/main/cpp/xh_core.c:475-495 | While an accepted request waits, no step of any kind takes the refresh thread or a clear further from serving it, and their own steps bring them nearer |
| `RefreshProtocol.RequestsAreServed` | app/src/main/cpp/xh_core.c:475-495 | For every interleaving of any number of callers, with further calls, clears and spurious wake-ups in between: once a request is accepted, the refresh thread starts to run the refresh, or it has ended and a clear joins it, by the time the refresh thread has taken eight steps, or clears six |
| `RefreshProtocol.WaitsForARunner` | app/src/main/cpp/xh_core.c:475-495 | Where the refresh thread cannot take its next step while a request waits, the thread that it waits for can |
| `RefreshProtocol.CallsFinish` | app/src/main/cpp/xh_core.c:558-611 | If no further call starts, the calls under way finish within a bound, and when no step is left every accepted request has been served |
| `RefreshProtocol.SleepsWithSomethingToDo` | app/src/main/cpp/xh_core.c:571-573 | A run into a state where the refresh thread sleeps although there is something to do |
| `RefreshProtocol.ServedByRefreshOrClear` | app/src/main/cpp/xh_core.c:488-494 | Between an accepted request and a state without waiting requests the refresh thread has started to run the refresh, or it has ended and a clear has joined it |
| `RefreshProtocol.CallsDoTheirWork` | app/src/main/cpp/xh_core.c:558-584 | A synchronous call that returns has run the refresh, and an asynchronous one has left its request, unless it gives up because the initialisation has failed or is under way |
| `RefreshProtocol.ClearsWipe` | app/src/main/cpp/xh_core.c:587-650 | A clear that returns has wiped the index, and nothing is initialised, no refresh thread exists and no request waits |
| `RefreshProtocol.FlagsMean` | app/src/main/cpp/xh_core.c:500-556 | The library counts as initialised exactly if the handler has been installed since the last clear, and a refresh thread exists exactly if one has been created since |
| `Words.MaskTest` | app/src/main/cpp/xh_elf.c:382-388 | Comparing a word with a mask of two bits tests both bits |
| `Words.EachBit` | app/src/main/cpp/xh_elf.c:123 | OR, AND and exclusive OR work on each bit by itself |
| `Words.AndSplit` | app/src/main/cpp/xh_elf.c:307 | AND works on high and low bits by themselves |
| `Words.XorSplit` | app/src/main/cpp/xh_elf.c:308-309 | So does exclusive OR |
| `Words.OrIsSum` | app/src/main/cpp/xh_elf.c:123 | OR into clear bits is addition |
| `Sleb128.Decoder.Next` | app/src/main/cpp/xh_elf.c:110-134 | Decodes the number that starts at cur, modulo the word size, and stops behind the first byte with its high bit clear; or reports a format error without passing the end |
| `Sleb128.AddByte` | app/src/main/cpp/xh_elf.c:122-124 | One turn of the loop adds one digit of the number |
| `Sleb128.ExtendSign` | app/src/main/cpp/xh_elf.c:127-130 | The sign extension gives the signed value modulo the word size |
| `Sleb128.ValueOfDigits` | app/src/main/cpp/xh_elf.c:127-130 | The signed value is the sum of the digits less the weight behind them |
| `Sleb128.EncodeValue` | app/src/main/cpp/xh_elf.c:110-134 | The encoding of a number stands for it, and only its last byte has a clear high bit (section 7.6 of DWARF Version 5) |
| `Sleb128.Examples` | app/src/main/cpp/xh_elf.c:110-134 | The examples of section 7.6 of DWARF Version 5 |
| `Sleb128.DecodeUndoesEncode` | app/src/main/cpp/xh_elf.c:110-134 | Decoding undoes encoding for every number, wherever the encoding stands in the data |
| `Sleb128.NoShiftTooFar` | app/src/main/cpp/xh_elf.c:123 | For numbers that fit a word no shift reaches the word size |
| `PackedRelocs.Iterator.Init` | app/src/main/cpp/xh_elf.c:159-171 | Reads the count and the start; after a failure, which xh_elf_hook does not look at, nothing is handed out |
| `PackedRelocs.Iterator.ReadGroupFields` | app/src/main/cpp/xh_elf.c:173-205 | The group fields by flags, with the addend kept, added to, or set to 0 |
| `PackedRelocs.Iterator.Next` | app/src/main/cpp/xh_elf.c:207-255 | Hands out the next record or NULL, never reading past the end nor handing out more than the count |
| `PackedRelocs.HandedOut` | app/src/main/cpp/xh_elf.c:211 | On any bytes at most the announced number of records is handed out |
| `PackedRelocs.EntryBytes` | app/src/main/cpp/xh_elf.c:218-241 | The bytes of an entry decode to the fields that its flags call for |
| `PackedRelocs.FlagMasks` | app/src/main/cpp/xh_elf.c:154-157 | The flags that the iterator looks at are the bits 1, 2, 4 and 8 |
| `PackedRelocs.GroupBytes` | app/src/main/cpp/xh_elf.c:178-202 | The bytes of a group decode to its fields |
| `PackedRelocs.HandsOutTheRest` | app/src/main/cpp/xh_elf.c:207-255 | From any position between two entries the iterator hands out what is left of the table |
| `PackedRelocs.RoundTrip` | app/src/main/cpp/xh_elf.c:136-255 | For every start and every list of non-empty groups, whatever they share, iterating over the encoding hands out exactly the relocations it stands for, offsets and addends accumulated modulo the word size, and then NULL |
| `PackedRelocs.Example` | app/src/main/cpp/xh_elf.c:136-255 | The bytes of three groups, and the five relocations that are handed out for them |
| `PlainRelocs.Iterator.Next` | app/src/main/cpp/xh_elf.c:88-94 | Steps forward first, and hands out the place it has stepped to |
| `PlainRelocs.EntryIsWords` | app/src/main/cpp/xh_elf.c:92 | A step is over two words, or three with addends |
| `PlainRelocs.Iterator.NextRecord` | app/src/main/cpp/xh_elf.c:88-94 | The k-th call hands out record k + 1, as long as there are more than k entries |
| `PlainRelocs.All` | app/src/main/cpp/xh_elf.c:88-94 | The places and the records handed out are numbers 1 to n, never number 0 and always the one past the end |
| `PlainRelocs.HandsOutTheTableIffEmpty` | app/src/main/cpp/xh_elf.c:88-94 | The places handed out are those of the table if and only if the table is empty |
| `PlainRelocs.SameRecordsIff` | app/src/main/cpp/xh_elf.c:88-94 | The records handed out are those of the table if and only if they are all the same, with the one past the end |
| `ElfHash.SysvHash` | app/src/main/cpp/xh_elf.c:301-313 | The loop computes the function of the System V gABI, chapter 5, "Hash Table", in 32 bits, and the result is below 2^28 |
| `ElfHash.SameFold` | app/src/main/cpp/xh_elf.c:307-309 | Clearing the high bits before folding them, without a test, gives what the gABI does |
| `ElfHash.HashOfSyscall` | app/src/main/cpp/xh_elf.c:301-313 | A known value of the function, with a fold |
| `ElfHash.SysvLookup` | app/src/main/cpp/xh_elf.c:355-374 | On acyclic chains the lookup terminates and finds the first symbol of the chain with the name; where all symbols are hashed it succeeds exactly if a symbol other than number 0 has the name |
| `ElfHash.SysvFormat` | app/src/main/cpp/xh_elf.c:360 | Every symbol is in the chain of the bucket that its hash gives |
| `ElfHash.GnuHash` | app/src/main/cpp/xh_elf.c:316-325 | The loop computes 5381 * 33^n + ... modulo 2^32 |
| `ElfHash.GnuHashOfSyscall` | app/src/main/cpp/xh_elf.c:316-325 | Known values of the function |
| `ElfHash.GnuFormat` | app/src/main/cpp/xh_elf.c:376-413 | Where a well-formed table has a symbol: its two bloom bits, its bucket and its chain word, as numbers |
| `ElfHash.BloomNeverRejects` | app/src/main/cpp/xh_elf.c:380-388 | The bloom test lets every hashed symbol pass |
| `ElfHash.LookupDef` | app/src/main/cpp/xh_elf.c:376-413 | The lowest hashed symbol with the name, or none; the chain walk terminates |
| `ElfHash.NoneAfterRun` | app/src/main/cpp/xh_elf.c:407-408 | Behind the marked end of a chain no symbol has the name |
| `ElfHash.LookupUndef` | app/src/main/cpp/xh_elf.c:415-430 | The lowest symbol with the name among those that are not hashed |
| `ElfHash.GnuLookup` | app/src/main/cpp/xh_elf.c:432-437 | On every well-formed table the lookup is a linear search through the hashed symbols and then the others: it succeeds exactly if some symbol has the name, and finds the first one |
| `ElfHook.FindSymidx` | app/src/main/cpp/xh_elf.c:439-445 | Succeeds exactly if a symbol has the name, for both kinds of table |
| `ElfHook.Process.ReplaceFunction` | app/src/main/cpp/xh_elf.c:447-496 | Either the word is replaced and its old value saved, or nothing has changed; where the function is there already nothing is done, and else the protection is asked for, changed only where it has to be, and changed back |
| `ElfHook.Process.FindAndReplace` | app/src/main/cpp/xh_elf.c:927-980 | Overwrites the word at bias plus offset exactly if the info of the record is the symbol above one of the types, in words of 64 or 32 bits, and the address does not lie below the library |
| `ElfHook.Process.HookPlt` | app/src/main/cpp/xh_elf.c:1001-1013 | Overwrites the first matching slot of the PLT and no other |
| `ElfHook.Process.HookDyn` | app/src/main/cpp/xh_elf.c:1016-1026 | Overwrites the matching slots in order, up to the first error |
| `ElfHook.Process.HookAndroid` | app/src/main/cpp/xh_elf.c:1028-1040 | The same for the packed table |
| `ElfHook.Process.Hook` | app/src/main/cpp/xh_elf.c:982-1045 | The first n targets have been overwritten, all of them if 0 is returned; a symbol that is not there changes nothing, nor does a call with NULL or for an object without a pathname, which is an error |
| `ElfHook.SlotsAreAllMatches` | app/src/main/cpp/xh_elf.c:955-962 | The slots are those of all matching records that are handed out |
| `ElfHook.DataTargetsAreAllMatches` | app/src/main/cpp/xh_elf.c:1015-1042 | Outside the PLT no matching record that is handed out is left out |
| `ElfHook.TargetsMean` | app/src/main/cpp/xh_elf.c:955-969 | Spelled out in symbol, type, bias and offset: a hook overwrites the slot of the first record of the PLT for the symbol, and those of all records of the other tables for it |
| `ElfHook.TargetsInOrder` | app/src/main/cpp/xh_elf.c:1000-1042 | First the PLT, then the other plain table, then the packed one |
| `ElfHook.SlotsInOrder` | app/src/main/cpp/xh_elf.c:1015-1042 | Within a table the slots are those of the records for the symbol, in their order |
| `ElfHook.HandedMeans` | app/src/main/cpp/xh_elf.c:88-94 | The records of a plain table that are handed out are those behind the first one |
| `ElfHook.PackedMeans` | app/src/main/cpp/xh_elf.c:1028-1040 | The records handed out for an encoded table are those it stands for, without their addends |
| `ElfHook.PatchedWords` | app/src/main/cpp/xh_elf.c:481 | Overwriting leaves the new function in every slot and changes no other word |
| `ElfHook.SavedIsAnOldFunction` | app/src/main/cpp/xh_elf.c:477-478 | The saved function stood in a slot and is not the new one; without a change it is kept |
| `ElfHook.HookedEverywhere` | app/src/main/cpp/xh_elf.c:982-1045 | After a hook that returns 0 the new function is in every target, no other word has changed, and the saved function is not the new one |
| `ElfHook.HookedMeans` | app/src/main/cpp/xh_elf.c:982-1045 | So a word has the new function exactly if it is such a target, and its old value otherwise |
| `ElfHook.SecondRunChangesNothing` | app/src/main/cpp/xh_elf.c:454-456 | A second run returns 0 and changes neither memory nor the saved function nor any protection |
| `MemProtect.GetMemProtect` | app/src/main/cpp/xh_util.c:44-103 | Succeeds exactly if private lines with the pathname cover the range without gaps, up to the end that the scan asks for, and answers the permissions common to all of them |
| `MemProtect.CoveredMeans` | app/src/main/cpp/xh_util.c:44-103 | Byte for byte: a range is covered exactly if each byte is in a private line with the pathname |
| `MemProtect.CommonMeans` | app/src/main/cpp/xh_util.c:68-90 | And a permission is common to it exactly if each byte has it in such lines |
| `MemProtect.ScanInto` | app/src/main/cpp/xh_util.c:66-96 | A line that holds the start of what is left extends the covered range up to its end |
| `MemProtect.ScanPast` | app/src/main/cpp/xh_util.c:59-66 | A line that does not is of no use, and no later line overlaps what is covered |
| `MemProtect.GoalIsEndIff` | app/src/main/cpp/xh_util.c:46-47 | The scan asks for the whole range exactly if it has bytes and ends before the end of memory, or is one byte |
| `MemProtect.RightAnswersIff` | app/src/main/cpp/xh_util.c:46-47 | So the answer is right for all lines if and only if the range has bytes and ends before the end of memory, or is one byte |
| `MemProtect.LastWordIsNotAskedFor` | app/src/main/cpp/xh_util.c:46-47 | The last word of memory, of which one byte is mapped: the scan succeeds |
| `MemProtect.WholePagesAnswerRightly` | app/src/main/cpp/xh_util.c:44-103 | For an aligned word and lines of whole pages the answer is right, also at the end of memory |
| `MemProtect.PageStartRoundsDown` | app/src/main/cpp/xh_util.c:40 | Masking rounds down to a page |
| `MemProtect.CoverIs` | app/src/main/cpp/xh_util.c:40-42 | The length that mprotect gets ends with the page of the last byte, even where the end wraps to 0 |
| `MemProtect.SmallestPages` | app/src/main/cpp/xh_util.c:110-116 | mprotect gets the smallest range of whole pages that holds the word |
| `MemProtect.AlignedWordInOnePage` | app/src/main/cpp/xh_util.c:110-116 | For an aligned word this is one page |
| `MicVeto.Microphone.GetRecordInterface` | app/src/main/cpp/rp_nativehook_audio.c:125-152 | A record interface is recorded with its engine |
| `MicVeto.Microphone.SetRecordState` | app/src/main/cpp/rp_nativehook_audio.c:233-252 | Refused without any effect while the microphone is not allowed; else saved for the engine, and passed on to this recorder and no other |
| `MicVeto.Microphone.SaveRecordState` | app/src/main/cpp/rp_pointer_manager.cpp:126-134 | The state is saved, and any state but RECORDING takes the block away |
| `MicVeto.Microphone.RequestStart` | app/src/main/cpp/rp_nativehook_audio.c:258-268 | Refused while the microphone is not allowed; else tracked and passed on |
| `MicVeto.Microphone.RequestStop` | app/src/main/cpp/rp_nativehook_audio.c:270-275 | Never refused; the stream is no longer tracked |
| `MicVeto.Microphone.RequestPause` | app/src/main/cpp/rp_nativehook_audio.c:277-280 | Never refused; the stream stays tracked |
| `MicVeto.Microphone.UpdateMicAccess` | app/src/main/cpp/rp_xhook_jni.c:75-81 | Setting the switch has one outcome, in whatever order the map and the set are gone through |
| `MicVeto.Microphone.UpdateOpensles` | app/src/main/cpp/rp_pointer_manager.cpp:149-199 | Each recorder is paused and marked, or resumed and unmarked, once |
| `MicVeto.Microphone.UpdateAaudio` | app/src/main/cpp/rp_pointer_manager.cpp:203-213 | Each tracked stream is paused, or started |
| `MicVeto.Play` | app/src/main/cpp/rp_nativehook_audio.c:125-280 | The calls of a run, made one after the other, lead to the state that the run theorems speak of |
| `MicVeto.StepKeepsGeneral` | app/src/main/cpp/rp_pointer_manager.cpp:126-214 | Every event keeps what holds however many record interfaces an engine has: an engine is marked exactly if it was set to record when the veto came, and no stream runs under the veto |
| `MicVeto.StepKeepsOneEach` | app/src/main/cpp/rp_pointer_manager.cpp:126-214 | Where engines have one record interface each, every event also keeps the platform doing what is saved |
| `MicVeto.AdmissibleRunsKeepGeneral` | app/src/main/cpp/rp_pointer_manager.cpp:126-214 | So the first holds over every run |
| `MicVeto.LegalRunsKeepOneEach` | app/src/main/cpp/rp_pointer_manager.cpp:126-214 | And the second over every run with one record interface for each engine |
| `MicVeto.VetoSilencesEverything` | app/src/main/cpp/rp_pointer_manager.cpp:161-206 | Whenever the microphone is not allowed, no stream runs, and with one record interface for each engine no recorder records |
| `MicVeto.VetoMissesIff` | app/src/main/cpp/rp_pointer_manager.cpp:157-172 | When the veto comes, a recorder goes on exactly if it recorded and is not the one that its engine remembers as recording and not blocked |
| `MicVeto.EngineFollowsEvents` | app/src/main/cpp/rp_pointer_manager.cpp:121-134 | What an engine remembers follows from the events alone: the interface obtained from it last, and the state last set through any of its interfaces |
| `MicVeto.RecorderFollowsEvents` | app/src/main/cpp/rp_pointer_manager.cpp:126-199 | With any number of record interfaces, what the platform does with each recorder follows from the events alone |
| `MicVeto.RecordersUntilTheSwitch` | app/src/main/cpp/rp_nativehook_audio.c:233-252 | As long as the switch is not touched, every recorder is in the state that the app has set through it last |
| `MicVeto.SetsOneRecorder` | app/src/main/cpp/rp_nativehook_audio.c:247 | A state that the app sets reaches the recorder through which it is set, and no other |
| `MicVeto.StreamFollowsEvents` | app/src/main/cpp/rp_pointer_manager.cpp:136-213 | What the platform does with each stream, and which streams are tracked, follows from the events alone |
| `MicVeto.VetoSilencesIff` | app/src/main/cpp/rp_pointer_manager.cpp:157-172 | With any number of record interfaces, under the veto no recorder records if and only if every recorder that recorded when it came was the one obtained last from its engine, and RECORDING was the state last set on that engine |
| `MicVeto.RecorderFollowsTheApp` | app/src/main/cpp/rp_pointer_manager.cpp:161-190 | Every recorder is in the last state that the app was allowed to set, but paused instead of recording under the veto; lifting it restores every recorder |
| `MicVeto.LiftRestoresStreamIff` | app/src/main/cpp/rp_pointer_manager.cpp:207-212 | After lifting the veto a stream is in the state the app asked for exactly if it is not a tracked stream that the app has paused |
| `MicVeto.LiftStartsAPausedStream` | app/src/main/cpp/rp_pointer_manager.cpp:207-212 | A run in which a stream that the app has paused is started |
| `MicVeto.SecondInterfaceEscapes` | app/src/main/cpp/rp_pointer_manager.cpp:121-124 | A run in which a second record interface of an engine lets the first one record under the veto |

## Left out

- Reading and parsing `/proc/self/maps`, compiling and applying expressions, `strstr`: lines are given parsed, and an expression or a name test is a predicate on strings.
- Failing allocations in `xh_core.c`: each allocation succeeds.
- The ELF header check and `xh_elf_init`: the check is a field of a map line, and libraries start from tables that are already located.
- Signal handling with `sigsetjmp` and `siglongjmp`: faults while a library is read or hooked are not modelled; that the handler can be installed is a parameter.
- Instruction cache flushing, log output, and the lists of `queue.h`, which are sequences here.
- ElfHook.Process.Hook: memory is a map from the address of a slot to its word, so it does not capture slots that overlap because they are not aligned, or slots inside the tables or at the caller's `old_func`; the answers of the kernel to `mprotect`, and of the protection query, are arbitrary.
- ElfHook.Process.AddrProtect: gives any protection or error, because the memory map can be anything; what the scan itself answers is stated for `MemProtect.GetMemProtect`.
- Sleb128.Decoder.Next: C leaves shifts by the word size or more undefined; here they give 0. They happen only for encodings longer than a word needs (`Sleb128.NoShiftTooFar`).
- ElfHash.SysvHash: the gABI function is taken in words of 32 bits; with a wider `unsigned long` the carry out of the shifted hash would be kept.
- RefreshProtocol.RequestsAreServed: that the refresh thread and the owners of mutexes do get to take their steps is up to the scheduler; a call that finds `init_ok` or `async_init_ok` not yet set, because another call is still initialising, returns an error and is not an accepted request; `xh_core_clear` starts only while no call is in flight, as its callers must see to.
- RefreshProtocol.NextInv: what a refresh does to the index is not part of the state machine; module Core has that, one call at a time.
- Core.Engine.Refresh: an asynchronous refresh is one that happens at once; when it happens is the matter of module RefreshProtocol.
- MicVeto.VetoSilencesIff: a record interface is obtained once, and before it is used, and the platform carries out each call. The constructor of `OpenSlesData` leaves `recordItf` uninitialised, which is NULL here.
- MicVeto.RecorderFollowsTheApp: for engines with one record interface each; with more, `MicVeto.RecorderFollowsEvents` says what each recorder does.
- SplayTree.Tree.Splay: nothing is said about its amortised cost.
- Ownership maps and copied function tables of OpenSL ES, camera and sensor hooks, and everything in Java, which pass calls on.
