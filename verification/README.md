# Verified model of SUVA and its findutils

The repository carries GNU findutils 4.5.11 (find, locate, xargs) beside the SUVA packet and
memory library. This project models the parts with the most state and branching and proves what
they are for. `dafny verify dfyconfig.toml` checks all of it.

Each part has the same shape: functions say what the program computes, theorem modules prove what
that is worth, and the modules ending in `Program` (and the classes in `BuildCmd`, `XargsRead`,
`XargsSlots`, `Locate02Reader`, `MemTable`, `MemRegistry`) are the C code in its own imperative
form, with its loops, pointers, buffers and arrays, proved against those functions.

**The expression compiler of find** (`Find*.dfy`, except the walk). Words become a list in which
omitted -and words are put back; the list is parsed by precedence climbing; the tree is normalised
and reordered by `opt_expr`, then `do_arm_swaps` exchanges operands. Primaries are arbitrary: one
without side effects is any function of the world, one with side effects any action that answers
and changes the world. The theorems say that what is evaluated in the end means what was written:
same answer, same actions in the same order; `FindOptOrder` and `FindSwapOrder` say in which order
the operands come. `FindHeap` describes the linked structures
(`pred_left`, `pred_right`, `pred_next`); on them the parser, the optimiser and the swaps rewrite
pointers in place, and each result is proved to stand for the tree its function gives, with no
structure lost or shared.

**The walk** (`FindWalk*.dfy`). `process_path` and `process_dir` on a finite directory graph that
may be cyclic, with hard links, -mindepth, -maxdepth, -depth, -xdev and -prune, once as functions
and once as a class that keeps the ancestor stack in a growing array.

**The locate databases** (`Locate*.dfy`, `Words.dfy`, `Bytes.dfy`). `frcode` and `code` write,
`visit_locate02_format` and `visit_old_format` read; each pair is proved to be inverse, or exactly
when it is.

**Command lines** (`Build*.dfy`, `Xargs*.dfy`). Collecting arguments in a buffer, flushing, the
bisection after E2BIG, the quoting rules of the input, and the table of running children.

**SUVA's own code** (`Scl*.dfy`, `Mem*.dfy`). The typed packets, whose reader zeroes length fields
it has used so that they end the strings before them, and the registry of allocations in hash
chains.

What the proofs found the code does not do:

- A comma is not commutative, but `consider_arm_swap` exchanges its operands like those of -and
  and -or. `find . a , b` with two tests prints what it should if and only if the cost of `a` is
  not above that of `b`; otherwise a file that only `b` accepts is not printed
  (`FindPipeline.CommaOfTwoTests`). `Harmless` in `FindSwap` tells for every tree whether a swap can
  be noticed, and `FindSwapExact.ArmSwapsExact` proves it right in both directions; conservation and
  the normal form hold for all trees.
- The comment at tree.c:512-517 wants the likelier operand of an -or first and the less likely one of
  an -and. The comparisons at tree.c:590 and tree.c:596 are the other way round: of two operands of
  one cost a visit leaves them as the comment wants if and only if they are equally likely
  (`FindSwapOrder.RatesTurnedRound`, with `FindSwapOrder.LikelierGoesLast` as an instance). The model
  follows the code. The swaps are one pass over each chain: the operand evaluated first is one of the
  best, and the others need not be in order (`FindSwapOrder.ArmSwapsBestFirst`,
  `FindSwapOrder.NotSorted`).
- `frcode` ends in a failed assertion of `put_short` when it drops a shared prefix of more than
  32768 bytes: exactly when is `Locate02Theorem.EncodeExact`, and `Locate02Theorem.RepeatedByteStops`
  gives such inputs.
- `bc_push_arg` does not check the length of an argument again after a flush. When the kernel takes
  what is waiting, an argument goes over the limit if and only if it does not fit behind the initial
  ones, others are waiting in front of it, and neither -I nor -x with -n or -L is given (with these
  it ends in a message). Its copy writes behind the end of `argbuf` when the sum exceeds the limit
  by more than the one byte `argbuf` has to spare (outcome `Overrun` of `BuildCmd.Builder.PushArg`);
  `BuildCmd.LeavesBuffer` gets there from an empty list. xargs itself never does, because
  `read_line` refuses such words (`XargsRun.Xargs` has no such outcome).
- The reader of the old format guesses the byte order from the first words. A native database is
  misread if and only if some word looks too large as it is and not too large when swapped, before
  any word has confirmed the order (`LocateOldTheorem.RoundTripExact`); two printable names that
  share 114 bytes at the start of a database are enough (`LocateOldTheorem.LongSharedPrefixMisread`).
  A database from a host of the other order comes back if every word is told from a native one
  before one is read as it stands, and, when no name is the same as the one before it, only then
  (`LocateForeign.ForeignRoundTrip`); two ordinary names that share 15 bytes can be enough for it to
  fail (`LocateForeign.SharedPrefixAstray`).
- `locate_read_str` counts the delimiter, so the length that `visit_locate02_format` keeps counts
  the NUL. The assertion at locate.c:611 fails if and only if the record is complete
  (`Locate02Theorem.LengthCountsTerminator`), so on the first record of every database `frcode`
  writes that is not empty (`Locate02Theorem.FirstRecordFailsAssertion`). The model follows the code
  with assertions compiled out there; names come back right because the length is only used as an
  upper bound.
- A packet does not tell an empty string from NULL (`SclRoundTrip.SamePacket`).

Readings of the source that matter:

- At tree.c:826 the assignment and the call both touch `curr->pred_right`; the call is taken first.
- `predlist_merge_sort` is not a sort. It only ever puts a node at the front of its list or behind
  the head, so that of the result only the head, which is evaluated last, is known to be one of the
  worst (`FindOptOrder.MergeSortIsOnePass`).
- `*prevp` in `opt_expr` is the root or the left pointer of a node; the model keeps which one it is.
  Where `merge_lists` and `set_new_parent` store through it, the model's methods return the pointer
  and one store follows.
- `get_expr` looks at the predecessor of a closing parenthesis, and at the very start there is none;
  that outcome has its own result in the model, `NoPrevious`.
- A primary's `id` stands for the structure that holds it. The equivalences about swaps are for trees
  whose ids all differ, that is, every occurrence may answer and act in its own way; the implications
  from harmless swaps to an unchanged meaning are for all trees.
- The kernel is a function from the number of the try and the whole argument list to accepted or
  E2BIG. Hash functions of the registry are any functions into the table. `malloc`, `realloc` and
  `waitpid` answers are parameters.
- Numbers of fixed width (`size_t` of 64 bits, words and packet lengths of 32) are modelled with
  their bounds and, where the source wraps, their wrap-around.

## Model

| member | source | states |
|---|---|---|
| FindTree.PureKeepsWorld | suvlets/SecurityAudit/remote/findutils-4.5.11/find/pred.c:235-244 | a subtree without side effects leaves the outside world as it was, whatever its primaries answer |
| FindOptMeaning.MergeSortPermutes | suvlets/SecurityAudit/remote/findutils-4.5.11/find/tree.c:379-444 | `predlist_merge_sort` loses no node and invents none |
| FindOptMeaning.ArrangePermutes | suvlets/SecurityAudit/remote/findutils-4.5.11/find/tree.c:735-852 | scanning one chain and merging the lists back gives a permutation of the chain |
| FindOptMeaning.ArrangeKeepsSegments | suvlets/SecurityAudit/remote/findutils-4.5.11/find/tree.c:735-852 | nodes whose right operand has side effects keep their places; the others are permuted only between two of those |
| FindOptMeaning.ArrangeKeepsMeaning | suvlets/SecurityAudit/remote/findutils-4.5.11/find/tree.c:735-852 | for every world, the rearranged chain gives the same answer and the same world as the chain and the listed nodes would |
| FindOptTheorem.OptContents | suvlets/SecurityAudit/remote/findutils-4.5.11/find/tree.c:690-853 | `opt_expr` keeps exactly the same primaries, negations and operators (only operators without a left operand are added), leaves the normal form, and its answer and the root flag say truly whether anything below has side effects |
| FindOptTheorem.OptKeepsMeaning | suvlets/SecurityAudit/remote/findutils-4.5.11/find/tree.c:690-853 | for every tree (commas included), every optimisation level, every behaviour of the primaries and every world, the optimised tree gives the same answer and leaves the same world |
| FindOptTheorem.OptKeepsBarriers | suvlets/SecurityAudit/remote/findutils-4.5.11/find/tree.c:735-852 | after `opt_expr` the chain is the one before it with side effects in place and pure nodes moved only inside their segment |
| FindOptTheorem.OptNormalises | suvlets/SecurityAudit/remote/findutils-4.5.11/find/tree.c:1234-1250 | both conditions that `check_normalization` asserts hold of the result, at every depth |
| FindOptOrder.MergeSortIsOnePass | suvlets/SecurityAudit/remote/findutils-4.5.11/find/tree.c:379-444 | `predlist_merge_sort` is one pass: each node goes in front of its list or behind the head, and the head, which is evaluated last, is one of the worst (costlier than, or as costly as and less likely to decide the chain than, no other) |
| FindOptOrder.RootChain | suvlets/SecurityAudit/remote/findutils-4.5.11/find/tree.c:735-852 | the chain that `opt_expr` leaves, exactly, from the name, regex, stat and cost fields and the level alone: in each stretch between operands with side effects those of no list stay as they were, and behind them towards the left end lie the cost lists, the costliest first, then the regex tests, then the name tests and, with -O1, the tests that cost nothing; a chain of a comma stays as it is |
| FindOptOrder.OptInOrder | suvlets/SecurityAudit/remote/findutils-4.5.11/find/tree.c:690-853 | in every chain of -and or -or at every depth of the optimised tree, no operand comes after one of a later kind within its stretch |
| FindOptOrder.InOrderPairs | suvlets/SecurityAudit/remote/findutils-4.5.11/find/tree.c:668-669 | which holds of any two operands without side effects between them, not of neighbours only: name tests are evaluated before regex tests and these before all others |
| FindSwap.SwapsOnce | suvlets/SecurityAudit/remote/findutils-4.5.11/find/tree.c:633-654 | a node just swapped is not swapped back: the loop at a node ends after at most one swap |
| FindSwap.SwapKeepsMeaning | suvlets/SecurityAudit/remote/findutils-4.5.11/find/tree.c:528-630 | one swap at an -and or -or of a normalised tree changes neither answer nor world |
| FindSwap.CommaSwapMeaning | suvlets/SecurityAudit/remote/findutils-4.5.11/find/tree.c:606-609 | one swap at a comma keeps the world but answers with the operand that used to come second to last |
| FindSwap.ArmSwapsKeepForm | suvlets/SecurityAudit/remote/findutils-4.5.11/find/tree.c:633-654 | the swaps keep all primaries and operators and the normal form, on every normalised tree |
| FindSwap.ArmSwapsKeepMeaning | suvlets/SecurityAudit/remote/findutils-4.5.11/find/tree.c:633-654 | on a normalised tree in which no swap is harmful, `do_arm_swaps` keeps answer and world, even when one primary occurs several times |
| FindSwap.ArmSwapsWithoutComma | suvlets/SecurityAudit/remote/findutils-4.5.11/find/tree.c:633-654 | in particular on every normalised tree without a comma |
| FindSwap.ArmSwapsMeaning | suvlets/SecurityAudit/remote/findutils-4.5.11/find/tree.c:633-654 | the same at any place in a tree: where the answer is not used, only the actions have to stay |
| FindSwapExact.ArmSwapsExact | suvlets/SecurityAudit/remote/findutils-4.5.11/find/tree.c:528-654 | for every normalised tree of different primaries: whatever these do and wherever find is, the actions (and, with `live`, the answer) stay the same if and only if no swap is harmful, a check on the guards of the swaps from the root down |
| FindSwapExact.Harmful | suvlets/SecurityAudit/remote/findutils-4.5.11/find/tree.c:606-609 | for every tree with a harmful swap, answers of the primaries with which find acts or answers otherwise |
| FindSwap.NormalFormNeeded | suvlets/SecurityAudit/remote/findutils-4.5.11/find/tree.c:528-630 | without the normal form an -and is not safe: `! a -a b` becomes `! b -a a`, which differs |
| FindSwapOrder.VisitRanks | suvlets/SecurityAudit/remote/findutils-4.5.11/find/tree.c:528-630 | a visit exchanges the two operands of a node exactly when both are free of side effects and the first costs more, or as much and is the likelier one of an -or or the less likely one of an -and |
| FindSwapOrder.MeasuresAre | suvlets/SecurityAudit/remote/findutils-4.5.11/find/tree.c:467-499 | a subtree counts as having side effects exactly when some node of it is flagged, and no node of it costs more than its worst cost |
| FindSwapOrder.RatesTurnedRound | suvlets/SecurityAudit/remote/findutils-4.5.11/find/tree.c:512-527 | the comment wants of an -or the likelier operand first and of an -and the less likely one; of two operands of one cost a visit leaves them so if and only if they are equally likely |
| FindSwapOrder.LikelierGoesLast | suvlets/SecurityAudit/remote/findutils-4.5.11/find/tree.c:590 | two tests of one cost in an -or, the likelier one first, end up the other way round |
| FindSwapOrder.ArmSwapsBestFirst | suvlets/SecurityAudit/remote/findutils-4.5.11/find/tree.c:633-654 | after `do_arm_swaps`, of every stretch of operands without side effects the one evaluated first is one of the best by cost, then rate |
| FindSwapOrder.NotSorted | suvlets/SecurityAudit/remote/findutils-4.5.11/find/tree.c:633-654 | and no more than that: of three tests the costliest can be left in front of a cheaper one |
| FindParserTheorem.ReadsPhrase | suvlets/SecurityAudit/remote/findutils-4.5.11/find/tree.c:121-227 | a phrase of the grammar in front of any continuation is read exactly, and reading goes on behind it |
| FindParserTheorem.ParsesGrammar | suvlets/SecurityAudit/remote/findutils-4.5.11/find/tree.c:121-287 | every phrase of the grammar (not over and over or over comma, left association) parses to its tree and uses every word |
| FindParserTheorem.ParseSound | suvlets/SecurityAudit/remote/findutils-4.5.11/find/tree.c:1398-1408 | whatever parses is a phrase of the grammar, and the tree is that phrase's |
| FindParserTheorem.ParseExact | suvlets/SecurityAudit/remote/findutils-4.5.11/find/tree.c:121-287 | a list of words is accepted if and only if it is a phrase of the grammar |
| FindParserErrors.MessageIs | suvlets/SecurityAudit/remote/findutils-4.5.11/find/tree.c:121-287 | and otherwise which message comes is told by the first word that cannot stand where it stands, in one pass with a count of the open parentheses |
| FindPrinter.WriteThenParse | suvlets/SecurityAudit/remote/findutils-4.5.11/find/tree.c:121-287 | writing any tree with only the parentheses its operators need and parsing it gives the tree back |
| FindPrinter.UnparseIsShortest | suvlets/SecurityAudit/remote/findutils-4.5.11/find/parser.c:761-774 | no way of writing the same tree is shorter, so no pair of parentheses could be left out |
| FindPrinter.Unambiguous | suvlets/SecurityAudit/remote/findutils-4.5.11/find/tree.c:243-287 | two readings of the same words are the same tree |
| FindCommandLine.BuildPredicateList | suvlets/SecurityAudit/remote/findutils-4.5.11/find/tree.c:1536-1581 | the list built word by word, with the -and that `get_new_pred_chk_op` adds between two operands and the parentheses and -print that `build_expression_tree` adds |
| FindCommandLine.ConjunctionsRestored | suvlets/SecurityAudit/remote/findutils-4.5.11/find/tree.c:1536-1581 | whichever of the -and words the user leaves out of an expression, the list holds all of them in their places again |
| FindCommandLine.CommandLineParses | suvlets/SecurityAudit/remote/findutils-4.5.11/find/tree.c:1277-1408 | so every expression, with any of its -and words left out, parses to its tree, alone or in front of the default -print |
| FindPipeline.BuiltTreeIsComplete | suvlets/SecurityAudit/remote/findutils-4.5.11/find/tree.c:1398-1441 | parsed, estimated, optimised, estimated again and swapped, the tree has exactly the primaries and operators that were parsed and passes `check_normalization` each time |
| FindPipeline.BuiltTreeIsRight | suvlets/SecurityAudit/remote/findutils-4.5.11/find/tree.c:1398-1441 | and it means what was parsed, for every estimate, level and behaviour of the primaries, if there is no comma or no swap is harmful |
| FindPipeline.BuiltTreeExact | suvlets/SecurityAudit/remote/findutils-4.5.11/find/tree.c:1398-1441 | when all primaries differ, exactly then |
| FindPipeline.FindMeansWhatIsWritten | suvlets/SecurityAudit/remote/findutils-4.5.11/find/tree.c:1277-1441 | from the words typed, any -and left out, to the tree evaluated: same actions in the same order, same answer, same primaries |
| FindPipeline.FindMeansExactly | suvlets/SecurityAudit/remote/findutils-4.5.11/find/tree.c:1277-1441 | the same as an equivalence: find does what was written if and only if no swap in the optimised tree is harmful |
| FindPipeline.CommaOfTwoTests | suvlets/SecurityAudit/remote/findutils-4.5.11/find/tree.c:606-609 | `find . a , b` with two tests, through list, default -print, parse, both estimates, `opt_expr` and swaps: it prints what it should, whatever the tests say, if and only if the cost of a is not above that of b; if it is, a file that only b accepts is not printed |
| FindSwapProgram.SubtreeHasSideEffects | suvlets/SecurityAudit/remote/findutils-4.5.11/find/tree.c:467-480 | on the linked structures, computes what the tree they stand for says |
| FindSwapProgram.WorstCostBelow | suvlets/SecurityAudit/remote/findutils-4.5.11/find/tree.c:483-499 | on the linked structures, the largest cost at and below a node |
| FindSwapProgram.PerformArmSwap | suvlets/SecurityAudit/remote/findutils-4.5.11/find/tree.c:504-509 | two pointer writes turn the structures into exactly the swapped tree, with the same structures |
| FindSwapProgram.ConsiderArmSwap | suvlets/SecurityAudit/remote/findutils-4.5.11/find/tree.c:528-630 | in place, swaps exactly when the cost or rate comparison for the operator says so, and says whether it did |
| FindSwapProgram.DoArmSwaps | suvlets/SecurityAudit/remote/findutils-4.5.11/find/tree.c:633-654 | in place, terminates and turns the structures into the tree that one visit to every node gives, using the same structures |
| FindParserProgram.Parser.GetExpr | suvlets/SecurityAudit/remote/findutils-4.5.11/find/tree.c:121-227 | in place, consumes list elements and hangs them together as the parsed tree; every element is used at most once; fails exactly when and as the parse fails |
| FindParserProgram.Parser.ScanRest | suvlets/SecurityAudit/remote/findutils-4.5.11/find/tree.c:243-287 | in place, the same for what follows an expression |
| FindParserProgram.Parser.BuildTree | suvlets/SecurityAudit/remote/findutils-4.5.11/find/tree.c:1398-1408 | parses the whole list in place, with the message for left-over words |
| FindChain.Hung | suvlets/SecurityAudit/remote/findutils-4.5.11/find/tree.c:870-926 | a chain of structures hung above a tree stands for the chain of items hung above the tree |
| FindListProgram.PredlistInsert | suvlets/SecurityAudit/remote/findutils-4.5.11/find/tree.c:346-357 | puts the node at the head of its list by pointer writes, all other lists untouched |
| FindListProgram.SortList | suvlets/SecurityAudit/remote/findutils-4.5.11/find/tree.c:379-440 | the relinking loops of `predlist_merge_sort` leave the list in the order of its functional description, with the same nodes |
| FindListProgram.MergeListsInPlace | suvlets/SecurityAudit/remote/findutils-4.5.11/find/tree.c:447-462 | all lists, in order, end up linked in front of the rest of the chain |
| FindOptProgram.NewParent | suvlets/SecurityAudit/remote/findutils-4.5.11/find/tree.c:870-916 | `set_new_parent` allocates one operator above the node and links it where the node was |
| FindOptProgram.TakeOut | suvlets/SecurityAudit/remote/findutils-4.5.11/find/tree.c:346-357 | the scanned node leaves the chain for its list, and nothing else changes |
| FindOptProgram.NormaliseLeft | suvlets/SecurityAudit/remote/findutils-4.5.11/find/tree.c:713-725 | the loop down the left side leaves a chain of binary operators that means what the tree meant |
| FindOptScan.MergeAndPass | suvlets/SecurityAudit/remote/findutils-4.5.11/find/tree.c:837-846 | in front of a node with side effects the lists go back into the chain, and the lists are empty again |
| FindOptScan.ScanChain | suvlets/SecurityAudit/remote/findutils-4.5.11/find/tree.c:735-852 | the loop over a chain with all its recursive calls, proved equal in place to the rearrangement of the chain |
| FindOptScan.OptExpr | suvlets/SecurityAudit/remote/findutils-4.5.11/find/tree.c:690-853 | `opt_expr` in place: the structures it leaves stand for exactly the optimised tree, no structure is lost or hangs in two places, and only new parents are allocated |
| FindProgram.EstimateCosts | suvlets/SecurityAudit/remote/findutils-4.5.11/find/tree.c:1134-1143 | filling in estimates changes only costs, rates and nothing of the tree |
| FindProgram.BuildExpressionTree | suvlets/SecurityAudit/remote/findutils-4.5.11/find/tree.c:1253-1453 | from the linked list to the final tree in place: it is the one the results above are about, or the parser's message |
| FindWalkTheorem.LeafOptimisationRefines | suvlets/SecurityAudit/remote/findutils-4.5.11/find/find.c:1302-1509 | when every directory has a link count below 2 or at least 2 plus its subdirectories, the walk with the leaf optimisation evaluates exactly the same paths in the same order, and reads the same directories, as the walk without it |
| FindWalkTheorem.NoDirectoryInsideItself | suvlets/SecurityAudit/remote/findutils-4.5.11/find/find.c:1176-1287 | on every finite graph, cyclic or not, the walk ends, and the directories being read at one time are pairwise different and begin with the starting point |
| FindWalkReach.PathIsPlain | suvlets/SecurityAudit/remote/findutils-4.5.11/find/find.c:1176-1509 | without the leaf optimisation the walk is the plain recursive one: evaluate, descend into what is a directory not yet on the stack and within the depth limit |
| FindWalkReach.VisitsExactlyOnce | suvlets/SecurityAudit/remote/findutils-4.5.11/find/find.c:1176-1509 | a path of at least -mindepth names is evaluated once if every proper prefix names a directory above -maxdepth, different from those before it, on the device of the starting point with -xdev, not pruned, and with an entry of the next name, which is not "", "." or begun by ".."; and otherwise never |
| FindWalkReach.VisitsWithinLimits | suvlets/SecurityAudit/remote/findutils-4.5.11/find/find.c:1221-1241 | no evaluated path is shorter than -mindepth or longer than -maxdepth or leads through another device with -xdev |
| FindWalkReach.WalkSorted | suvlets/SecurityAudit/remote/findutils-4.5.11/find/find.c:1242-1506 | of any two evaluated paths the earlier one is the one above the other (with -depth the one below), or comes first in the order of readdir where they part |
| FindWalkLeaf.WrongCountNoticed | suvlets/SecurityAudit/remote/findutils-4.5.11/find/find.c:1460-1480 | a link count that is too low is noticed at the first directory too many that readdir names as one, wherever it stands: from there on everything is walked without the leaf optimisation |
| FindWalkLeaf.TwoLinks | suvlets/SecurityAudit/remote/findutils-4.5.11/find/find.c:1302-1318 | a directory of two links whose entries readdir does not name as directories is walked as if all were files |
| FindWalkReach.WalkOrdered | suvlets/SecurityAudit/remote/findutils-4.5.11/find/find.c:1242-1283 | a directory comes before everything in it, or with -depth after everything in it |
| FindWalkProgram.Finder.Enter | suvlets/SecurityAudit/remote/findutils-4.5.11/find/find.c:1176-1253 | the loop over the ancestor stack and the depth and device tests decide exactly whether to stop at a directory |
| FindWalkProgram.Finder.ProcessPath | suvlets/SecurityAudit/remote/findutils-4.5.11/find/find.c:1176-1287 | with the stack kept in a growing array, evaluates exactly the paths of the functional walk, and leaves stack and depth as they were |
| FindWalkProgram.Finder.ProcessEntry | suvlets/SecurityAudit/remote/findutils-4.5.11/find/find.c:1460-1506 | one turn of the readdir loop, with the count of subdirectories left and the switch to `no_leaf_check` when the count is wrong |
| FindWalkProgram.Finder.ProcessDir | suvlets/SecurityAudit/remote/findutils-4.5.11/find/find.c:1302-1570 | one directory: the readdir loop with `subdirs_left`, and the assertion at its end |
| FindWalkProgram.Finder.Find | suvlets/SecurityAudit/remote/findutils-4.5.11/find/find.c:1176-1287 | a whole walk from a starting point |
| LocateWord.ReadBack | suvlets/SecurityAudit/remote/findutils-4.5.11/locate/word_io.c:159-178 | a word reads back on the host that wrote it and reads swapped on one of the other byte order |
| LocateWord.DecodeValue | suvlets/SecurityAudit/remote/findutils-4.5.11/locate/word_io.c:63-121 | the guess about the byte order, word by word, with the state it updates |
| LocateWord.DecidedForGood | suvlets/SecurityAudit/remote/findutils-4.5.11/locate/word_io.c:63-121 | once decided, the byte order never changes again |
| LocateWord.NativeStreamExact | suvlets/SecurityAudit/remote/findutils-4.5.11/locate/word_io.c:63-121 | a native stream reads back as written if and only if no word misleads the reader before one confirms the order |
| LocateWord.NativeStream | suvlets/SecurityAudit/remote/findutils-4.5.11/locate/word_io.c:63-121 | in particular whenever every word is within its limit |
| LocateWord.SwappedStream | suvlets/SecurityAudit/remote/findutils-4.5.11/locate/word_io.c:63-121 | a stream of the other byte order reads swapped up to the first word that gives the order away, and correctly from there on |
| LocateBytes.PrefixLength | suvlets/SecurityAudit/remote/findutils-4.5.11/locate/frcode.c:131-144 | the loop on terminated buffers finds the longest common prefix |
| Locate02.PutShort | suvlets/SecurityAudit/remote/findutils-4.5.11/locate/frcode.c:117-126 | refuses exactly the numbers outside 16 bits, and writes two's complement high byte first |
| Locate02.Frcode | suvlets/SecurityAudit/remote/findutils-4.5.11/locate/frcode.c:297-353 | the loop over the entries with its swapped buffers writes exactly the differential encoding, or stops where `put_short` asserts |
| Locate02Theorem.ShortRoundTrip | suvlets/SecurityAudit/remote/findutils-4.5.11/locate/locate.c:225-233 | `get_short` undoes `put_short` |
| Locate02Theorem.CountReadBack | suvlets/SecurityAudit/remote/findutils-4.5.11/locate/locate.c:584-595 | a count comes back from one byte or from the escape and a short |
| Locate02Theorem.RoundTrip | suvlets/SecurityAudit/remote/findutils-4.5.11/locate/locate.c:554-628 | whenever frcode gets through, locate reads exactly the list of NUL-free entries, sorted or not, and never reports corruption |
| Locate02Theorem.EncodeExact | suvlets/SecurityAudit/remote/findutils-4.5.11/locate/frcode.c:301-310 | frcode gets through if and only if no entry has to give up a prefix of more than 32768 bytes by more than a short can say |
| Locate02Theorem.LongPrefixStops | suvlets/SecurityAudit/remote/findutils-4.5.11/locate/frcode.c:117-126 | a family of inputs on which it does not get through: a name, twice a longer one extending it, and one that shares too little with that |
| Locate02Theorem.RepeatedByteStops | suvlets/SecurityAudit/remote/findutils-4.5.11/locate/frcode.c:117-126 | such names made of one byte over and over |
| Locate02Theorem.ShortEntriesRoundTrip | suvlets/SecurityAudit/remote/findutils-4.5.11/locate/locate.c:554-628 | entries of up to 32768 bytes always make the round trip |
| Locate02Theorem.LengthCountsTerminator | suvlets/SecurityAudit/remote/findutils-4.5.11/locate/locate.c:606-612 | the byte asserted not to be NUL is one if and only if there is a NUL in the input, that is, if the record is complete |
| Locate02Theorem.RecordFailsAssertion | suvlets/SecurityAudit/remote/findutils-4.5.11/locate/locate.c:606-612 | every record as frcode writes it fails that assertion |
| Locate02Theorem.FirstRecordFailsAssertion | suvlets/SecurityAudit/remote/findutils-4.5.11/locate/locate.c:606-612 | every database frcode writes, unless it is empty, fails it at once |
| Locate02Theorem.ListIsWritten | suvlets/SecurityAudit/remote/findutils-4.5.11/locate/frcode.c:297-353 | what frcode writes, entry by entry in numbers: the difference of the kept prefix lengths as one signed byte up to 127 either way, else 128 and two bytes high byte first, then the rest of the name and a NUL; kept is all that two names have in common unless the difference is no short |
| Locate02Any.AnyFile | suvlets/SecurityAudit/remote/findutils-4.5.11/locate/locate.c:554-628 | on every file, damaged or not, locate hands on exactly the names that a reader without a buffer finds, each record keeping no more of the one before than there was, and reports exactly the damaged ones; only where the last record is cut short one more name follows |
| Locate02Reader.ProcessData.LocateReadStr | suvlets/SecurityAudit/remote/findutils-4.5.11/locate/locate.c:263-293 | reads up to and with the delimiter and overlays it on the previous entry in place |
| Locate02Reader.ProcessData.VisitLocate02Format | suvlets/SecurityAudit/remote/findutils-4.5.11/locate/locate.c:554-628 | one entry in place: result and new state are those of the functional reader, corruption included |
| Locate02Reader.SearchOneDatabase | suvlets/SecurityAudit/remote/findutils-4.5.11/locate/locate.c:1039-1387 | the driving loop hands on every name, in order, or reports corruption |
| LocateOldTheorem.TextReadBack | suvlets/SecurityAudit/remote/findutils-4.5.11/locate/locate.c:525-545 | text bytes, pair codes and count bytes are never taken for one another, for every table |
| LocateOldTheorem.MisreadsEntry | suvlets/SecurityAudit/remote/findutils-4.5.11/locate/locate.c:498-520 | an entry whose count misleads the byte-order guess comes out with a wrong length or ends the program |
| LocateOldTheorem.RoundTripExact | suvlets/SecurityAudit/remote/findutils-4.5.11/locate/locate.c:486-551 | from a reader that has not decided, the list (unprintable bytes as `?`) comes back if and only if no entry misleads the guess |
| LocateOldTheorem.NativeRoundTrip | suvlets/SecurityAudit/remote/findutils-4.5.11/locate/locate.c:486-551 | with the order known to be native it always comes back, for every 256-byte table and every list |
| LocateOldTheorem.ShortNamesRoundTrip | suvlets/SecurityAudit/remote/findutils-4.5.11/locate/locate.c:486-551 | names of up to 113 bytes always come back |
| LocateOldTheorem.LongSharedPrefixMisread | suvlets/SecurityAudit/remote/findutils-4.5.11/locate/word_io.c:63-121 | two names sharing 114 bytes or more (the first not much longer) do not come back from an undecided reader |
| LocateOldAny.AnyFile | suvlets/SecurityAudit/remote/findutils-4.5.11/locate/locate.c:486-551 | on every file, of whatever byte order and with whatever belief about it, locate hands on exactly the names that a reader without a buffer finds and ends as that does, up to the first count that leads behind a name |
| LocateForeign.ForeignRoundTrip | suvlets/SecurityAudit/remote/findutils-4.5.11/locate/locate.c:486-551 | written on a host of the other byte order, the list comes back if no word goes astray before the order is told, and for lists without adjacent repetitions only then |
| LocateForeign.AstrayShows | suvlets/SecurityAudit/remote/findutils-4.5.11/locate/locate.c:495-520 | a word read as it stands shows in the name, or ends the reading, unless the name repeats the one before it |
| LocateForeign.SwabRoundTrip | suvlets/SecurityAudit/remote/findutils-4.5.11/locate/locate.c:486-551 | with the order known to be the other one it always comes back |
| LocateForeign.SharedPrefixAstray | suvlets/SecurityAudit/remote/findutils-4.5.11/locate/word_io.c:63-121 | a family of pairs of ordinary names that do not come back from the other byte order |
| LocateOldPrograms.StrIndexLoop | suvlets/SecurityAudit/remote/findutils-4.5.11/locate/code.c:97-112 | the first place of the pair in the table, at an even or an odd offset, or -1 |
| LocateOldText.TextInPairs | suvlets/SecurityAudit/remote/findutils-4.5.11/locate/code.c:257-272 | at its place in what is written, each pair of letters that stands at an even offset of the table the first time it occurs there, in front of the padding, is the one byte 128 plus half that offset, every other pair is its two letters, a single letter at the end is itself; so the text written is shorter by exactly the number of coded pairs |
| LocateOldText.EntryIsWritten | suvlets/SecurityAudit/remote/findutils-4.5.11/locate/code.c:233-272 | in front of it the difference of the prefix lengths: one byte up to 14 either way, else 30 and a word |
| LocateOldPrograms.WriteText | suvlets/SecurityAudit/remote/findutils-4.5.11/locate/code.c:257-272 | the loop over the pairs writes the text so |
| LocateOldPrograms.SquelchInPlace | suvlets/SecurityAudit/remote/findutils-4.5.11/locate/code.c:226-231 | replaces every unprintable byte in place, and no other |
| LocateOldPrograms.Code | suvlets/SecurityAudit/remote/findutils-4.5.11/locate/code.c:220-282 | the loop over the lines writes exactly the table and the encoding: one entry behind the other, each as above against the printable form of the one before |
| LocateOldPrograms.ProcessData.VisitOldFormat | suvlets/SecurityAudit/remote/findutils-4.5.11/locate/locate.c:486-551 | one entry in place: result and new state are those of the functional reader |
| LocateOldPrograms.SearchOneDatabase | suvlets/SecurityAudit/remote/findutils-4.5.11/locate/locate.c:1039-1387 | the driving loop hands on every name, in order, and how it ends |
| BuildLimit.NeverWraps | suvlets/SecurityAudit/remote/findutils-4.5.11/lib/buildcmd.c:175-236 | the arithmetic of `update_limit` stays between 0 and the largest size |
| BuildLimit.SuccessBound | suvlets/SecurityAudit/remote/findutils-4.5.11/lib/buildcmd.c:211-217 | a success raises the limit by one at most, or to no more than the smallest count known to fail |
| BuildLimit.GuessBisects | suvlets/SecurityAudit/remote/findutils-4.5.11/lib/buildcmd.c:196-236 | between a count that worked and one that failed, whatever the answer to the guess, the next bracket is at most half as wide |
| BuildLimit.FailuresHalve | suvlets/SecurityAudit/remote/findutils-4.5.11/lib/buildcmd.c:196-236 | as long as nothing has worked, each failure halves the limit, down to one argument |
| BuildArgs.ArgvReads | suvlets/SecurityAudit/remote/findutils-4.5.11/lib/buildcmd.c:243-262 | the copied pointers up to the NULL read from the buffer as the initial arguments and a stretch of the others |
| BuildCmd.Builder.UpdateLimit | suvlets/SecurityAudit/remote/findutils-4.5.11/lib/buildcmd.c:175-236 | the next limit leaves room for one argument, after a failure is strictly lower as long as there was room for two, and after a success grows by one or stays below what failed |
| BuildCmd.Builder.CopyArgs | suvlets/SecurityAudit/remote/findutils-4.5.11/lib/buildcmd.c:243-262 | the initial arguments, then as many others behind those done as the limit allows, then NULL |
| BuildCmd.Builder.Round | suvlets/SecurityAudit/remote/findutils-4.5.11/lib/buildcmd.c:285-310 | each try either lowers the limit or carries arguments; it is fatal only when a line with at most one argument was refused |
| BuildCmd.Builder.Attempt | suvlets/SecurityAudit/remote/findutils-4.5.11/lib/buildcmd.c:285-310 | within a whole run each try keeps what has been sent in order and the bound on the tries |
| BuildCmd.Builder.DoExec | suvlets/SecurityAudit/remote/findutils-4.5.11/lib/buildcmd.c:269-316 | terminates for every callback, after a number of tries bounded by a formula in the number of arguments waiting and the smallest count known to fail; what was pending has gone out in order behind the initial arguments, all of it, or, after a refusal of at most one argument, a prefix; the first try carries everything that is pending, and it is the only one if and only if the kernel accepts that |
| BuildCmd.Builder.ClearArgs | suvlets/SecurityAudit/remote/findutils-4.5.11/lib/buildcmd.c:599-606 | back to the initial arguments, buffer and pointers agreeing |
| BuildCmd.Builder.MakeRoom | suvlets/SecurityAudit/remote/findutils-4.5.11/lib/buildcmd.c:365-382 | what was pending is still pending or has gone out, a slot is free, and the string fits, unless it does not fit behind the initial arguments, others were pending and may be sent without it; under these conditions it runs over when the kernel takes what was pending, and a string for which there is room changes nothing |
| BuildCmd.Builder.PushArg | suvlets/SecurityAudit/remote/findutils-4.5.11/lib/buildcmd.c:350-428 | the arguments gone out and those pending are those before with the new one behind, in order; every exec within all limits; it gives up only for one of the reasons to; when the kernel refuses nothing it runs over exactly on an argument that does not fit behind the initial ones while others are pending that may be sent without it, gives up exactly on one that does not fit while nothing is pending or nothing may be split, and takes in all others; and whether the copy then leaves `argbuf` |
| BuildCmd.LeavesBuffer | suvlets/SecurityAudit/remote/findutils-4.5.11/lib/buildcmd.c:365-412 | a run from an empty list, with a kernel that accepts everything, at whose end the copy leaves `argbuf` |
| BuildCmd.TakeWords | suvlets/SecurityAudit/remote/findutils-4.5.11/xargs/xargs.c:738-743 | the same over a list of words, with a flush behind those that complete -L lines; with a kernel that accepts everything, exactly the execs of the greedy batching and exactly what it leaves waiting |
| XargsRun.AllSmall | suvlets/SecurityAudit/remote/findutils-4.5.11/xargs/xargs.c:818 | no word that `read_line` pushes is longer than what is left behind the command |
| XargsRun.RoomIsExact | suvlets/SecurityAudit/remote/findutils-4.5.11/xargs/xargs.c:818 | a word is let in exactly when a command line with it alone keeps the size limit |
| XargsRun.ExecIfPossible | suvlets/SecurityAudit/remote/findutils-4.5.11/xargs/xargs.c:1325-1332 | in front of a message, what is pending goes out, unless command lines must not be split |
| XargsRun.Xargs | suvlets/SecurityAudit/remote/findutils-4.5.11/xargs/xargs.c:725-751 | from the bytes of the input: when xargs finishes, the successful execs have carried exactly the words in it, in order, each behind the whole command and within the size, count and -n limits, at least one where that is wanted; before a complaint about the input all words in front of it have gone out, or a prefix of them with -x; it gets there unless the command is too long, -x or -I forbids a split that is needed, or the kernel refuses a line with at most one word; nothing runs out of the buffer; with a kernel that accepts everything, no exec but the last could have taken the next word: its line ends there, its count or -n is used up, or the word is too long for it and may be split from it; and no exec goes on behind the end of a line |
| XargsBatches.AllPacked | suvlets/SecurityAudit/remote/findutils-4.5.11/xargs/xargs.c:725-751 | the execs of the batching are as full as their lines and limits allow |
| XargsRun.XargsOfProtected | suvlets/SecurityAudit/remote/findutils-4.5.11/xargs/xargs.c:725-969 | arguments written with backslashes come out in the execs as they are |
| XargsRead.Xargs.ReadLine | suvlets/SecurityAudit/remote/findutils-4.5.11/xargs/xargs.c:797-969 | the character loop with its buffer, state and end-of-file string: same pushes, result and rest of the input as its description |
| XargsRead.ReadLines | suvlets/SecurityAudit/remote/findutils-4.5.11/xargs/xargs.c:738-743 | repeated calls until -1 or a message |
| XargsQuoting.QuotingExact | suvlets/SecurityAudit/remote/findutils-4.5.11/xargs/xargs.c:797-969 | for every way of quoting words (backslash, single and double quotes, mixed) and every white space between them, the words pushed are exactly the values, up to the end-of-file string or a word over the limit; a last word needs nothing behind it, and is the end-of-file string only where it is first on its line; a quote that a newline or the end of the input leaves open ends in its message after exactly the words before it, unless the input ends with nothing collected |
| XargsQuoting.EveryInput | suvlets/SecurityAudit/remote/findutils-4.5.11/xargs/xargs.c:797-969 | every sequence of bytes is of that form, so that this tells what comes of every input |
| XargsQuoting.RoundTrip | suvlets/SecurityAudit/remote/findutils-4.5.11/xargs/xargs.c:797-969 | any list of NUL-free arguments within the limit, written with backslashes and ended by a blank or newline each and a newline at the end, is read back as that list |
| XargsSlots.EveryRun | suvlets/SecurityAudit/remote/findutils-4.5.11/xargs/xargs.c:1338-1469 | in every run of launches, failed execs and reaps the count is the number of used slots, the live children are those in the table, each in one slot, and with a positive -P at most that many run |
| XargsSlots.ChildSlotAgrees | suvlets/SecurityAudit/remote/findutils-4.5.11/xargs/xargs.c:1167-1198 | the slot a child computes for itself is the one its parent puts it in, free until then and below -P |
| XargsSlots.Table.AddProc | suvlets/SecurityAudit/remote/findutils-4.5.11/xargs/xargs.c:1338-1363 | takes the first free slot, growing the table when there is none |
| XargsSlots.Table.Launched | suvlets/SecurityAudit/remote/findutils-4.5.11/xargs/xargs.c:1167-1310 | the child in its copy of the table and the parent in its own arrive at the same slot |
| XargsSlots.Table.WaitForProc | suvlets/SecurityAudit/remote/findutils-4.5.11/xargs/xargs.c:1372-1469 | forgets exactly the children whose ends are reported, ignores others, stops at the first answer "none" or when nothing runs; children count as lost exactly when that answer comes before enough were reaped |
| XargsSlots.Table.DoExec | suvlets/SecurityAudit/remote/findutils-4.5.11/xargs/xargs.c:1167-1310 | waits until fewer than -P children run, reaps, forks: every run of it is a possible one, never more than -P children run, the child's slot is below -P; it waits on only while -P children run and no more ends are reported |
| SclCodec.LengthKept | scl_writer.c:110-196 | the length counted while a value is queued is the number of bytes later written for it |
| SclRoundTrip.StringsReadBack | scl_reader.c:108-261 | the strings of an array come back although their length fields are zeroed in place, the earlier pointers still showing whole strings |
| SclRoundTrip.ValueReadsBack | scl_reader.c:108-261 | any well-typed value reads back behind any bytes and in front of any others, with the cursor right behind it |
| SclRoundTrip.RoundTrip | scl_reader.c:108-261 | any queue of values read with its types gives the values back, cursor at the end of the packet, and all pointers still show their strings after the last call |
| SclRoundTrip.SamePacket | scl_writer.c:200-384 | two queues of the same types make the same packet if and only if they differ only in what the format cannot tell (an empty string from NULL) |
| SclProgram.PacketRoundTrip | scl_reader.c:74-261 | header, length and values come apart again, whatever follows on the connection |
| SclProgram.OutConn.AllocEle | scl_writer.c:386-392 | appends one element to the linked queue |
| SclProgram.OutConn.QueueValue | scl_writer.c:110-196 | the queue holds one more value, the running length is that of the whole payload |
| SclProgram.OutConn.WriteValue | scl_writer.c:200-384 | writes exactly the bytes of one value |
| SclProgram.OutConn.WriteOut | scl_writer.c:70-106 | writes the header with the exact payload length, then the payload, and empties the queue |
| SclProgram.InConn.ReadPacket | scl_reader.c:74-106 | takes exactly one packet off the connection, or reports the hang-up or a bad length |
| SclProgram.InConn.GetValue | scl_reader.c:108-261 | moves the cursor and zeroes bytes of the buffer in place exactly as described |
| MemTable.Table.Find | mem.c:818-868 | the search along one bucket answers exactly whether the key is in the table |
| MemTable.Table.Push | mem.c:223-227 | a node put in front of its chain: the map gains that key, other chains are untouched |
| MemTable.Table.Unlink | mem.c:458-526 | a node cut out of its chain: the map loses that key, order and other chains stay |
| MemRegistry.Memory.FindPtr | mem.c:818-850 | an entry is found if and only if the pointer is registered; the full search behind it adds nothing |
| MemRegistry.Memory.AddType | mem.c:40-96 | all four results, and the type is added exactly on success |
| MemRegistry.Memory.DelType | mem.c:99-155 | refused exactly while some chunk has the type; otherwise unlinked |
| MemRegistry.Memory.Alloc | mem.c:176-234 | a chunk of the type and size is registered, or nothing changes |
| MemRegistry.Memory.Store | mem.c:386-455 | all results; a foreign pointer is registered as stored |
| MemRegistry.Memory.Realloc | mem.c:298-383 | the entry follows its memory to the new address and bucket with the new size; stored or unknown pointers are refused |
| MemRegistry.Memory.Free | mem.c:458-526 | the pointer is forgotten, its memory given back unless stored |
| MemRegistry.Memory.GetSize | mem.c:575-592 | the sum of the sizes of the type over all entries, modulo the width of the total |
| MemRegistry.Memory.FreeBucket | mem.c:529-552 | the walk along a chain that is being cut meets every doomed entry |
| MemRegistry.Memory.FreeAll | mem.c:529-572 | exactly the entries of the type go (for 0 all, and then all types too, none of which is refused as in use), each not stored given back once |
| MemRegistry.SizesAfterFreeAll | mem.c:529-592 | afterwards the size of that type is 0 and of every other type what it was |
| MemRegistry.SizesAfterAlloc | mem.c:176-234 | a new chunk adds its size to its type and to no other |

## Left out

- FindProgram.EstimateCosts: the costs and rates it fills in are arbitrary values, because they are floats and heuristics; only that nothing else changes is stated, and the estimates are taken anew between optimisation and swaps.
- FindListProgram.SortList: does not update the rates of operators on the way as `predlist_merge_sort` does through `calculate_derived_rates`, because the order it produces compares right operands only; the new rates are part of the arbitrary second estimate.
- FindListProgram.MergeListsInPlace: hands back the new head, which its caller stores, instead of storing through `*prevp` once for every list; the pointers in the end are the same.
- FindSwap.ArmSwapsKeepMeaning: asks that no swap is harmful, because the meaning changes otherwise (`FindSwapExact.ArmSwapsExact`).
- FindCommandLine.BuildPredicateList: the words are already told apart; options, names of primaries and their arguments are not parsed.
- FindProgram.BuildExpressionTree: starts from the linked list; the texts of messages are reduced to their kinds.
- FindWalkTheorem.LeafOptimisationRefines: needs truthful link counts (or counts below 2), because with others the optimisation skips directories by design.
- FindWalkProgram.Finder.ProcessPath: no failing stat, chdir, opendir or readdir, no symbolic links, no -execdir, no change of the file system during the walk.
- FindWalkReach.VisitsExactlyOnce: speaks of names that occur once in a directory; names beginning with `..` are not reached, because `process_dir` skips them all.
- Locate02Reader.SearchOneDatabase: neither the slocate variant, whose second entry ignores the stored count, nor patterns, statistics and existence checks behind the reader.
- Locate02Reader.ProcessData.LocateReadStr: growing the buffer is a longer array; the doubling of its size is not modelled.
- LocateForeign.ForeignRoundTrip: for lists in which a name is the same as the one before it the condition is only sufficient, because a wrong count that leads behind the end of a name shows that name once more.
- LocateOldPrograms.SearchOneDatabase: starts behind the table and with a given state of the byte-order guess; reading past the names ever written is an outcome of its own.
- BuildCmd.Builder.PushArg: no prefix and no `todo` flag, because what is pending is told by the argument count; the callback answers only accepted or E2BIG.
- XargsRun.Xargs: not the replacement mode (-I), and the lines of -L are given as the positions behind which a flush is due; the command itself stays below the count limit; a word with a NUL in it counts as cut off there, while the source counts its whole length towards the size.
- XargsRead.ReadLines: not the NUL-delimited input of -0 and -d.
- XargsSlots.Table.WaitForProc: exit statuses and the messages that end xargs are not modelled, nor SIGUSR1 and SIGUSR2 changing the number of processes.
- XargsSlots.Table.DoExec: the pipe between parent and child is reduced to whether the exec worked, and a fork that fails for want of processes is not modelled.
- SclRoundTrip.RoundTrip: array lengths and sizes are not negative and a string array without strings has length 0, as callers of `scl_queue_value` must see to; the big-endian swap branches are not modelled.
- SclProgram.InConn.ReadPacket: the peer either sends or hangs up; timeouts and partial reads are not modelled. A packet without values gives 0 like a hang-up, as in the source.
- SclProgram.InConn.GetValue: asks that the packet holds a value of the type at the cursor, because the source trusts the packet.
- MemRegistry.Memory.Realloc: the contents of the memory and their zero fill are not modelled, nor a `realloc` to size 0 that frees the memory and answers NULL.
- MemRegistry.Memory.Free: no custom free callbacks, which could call back into the registry.
- MemRegistry.Memory.Alloc: not `mem_calloc`, which records the size of one member, nor the names of types; a new address is never one still registered.
- Performance counters, debug output, locale, privileges and option handling of all programs.
- `ftsfind.c`, whose walk lies in a library that is not part of this model.
- Primaries, file name and regular expression matching, -printf, time and SELinux.
- Safe directory changes and automounting in find.c.
- Sockets, connection set-up, file transfer and the suvlets of SUVA; crc.c, sutil.c and the dump and plot functions of mem.c.
