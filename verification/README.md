# GlusterFS 3.0.2: verified models of its hardest parts

This project models six parts of GlusterFS 3.0.2 in Dafny 4.11 and proves what they promise. It stands alone;
`dafny verify dfyconfig.toml` checks everything. Nothing of the original program was executed.

1. **Red-black trees** (`contrib/rbtree/rb.c`; modules `Rb*`). Nodes are heap objects with two links, a colour and
   an item; operations walk with explicit stacks, never with parent pointers, and write links and colours in place.
   `Tree` and `Path` are ghost views of the heap: a subtree, and the way from it up to the header node, whose first
   link is `rb_root`. `Table.Valid` says that the heap is exactly one such tree, a search tree with a black root, no
   red node below a red one, equal black heights, and the right count. Traversers keep their own stack; a ghost
   number of changes stands behind the generation counter, which wraps at 2^64. `RbRuns.RunSteps` runs any program of
   operations on a table with any number of traversers and compares every answer with a finite map with cursors
   (`RbCursors`).
2. **The option parser** (`argp-standalone/argp-parse.c`; `ArgpTypes`, `ArgpMachine`, `ArgpSafety`, `ArgpLifecycle`,
   `ArgpOrder`, `ArgpGrammar`, `ArgpLookup`, `ArgpConvert`, `ArgpParser`, `ArgpWhole`, `ArgpRejects`, `ArgpArgs`,
   `ArgpInTurn`, `ArgpFlag`, `ArgpEnding`). `ArgpMachine` is the parser as a state machine whose callbacks are an
   arbitrary function of all calls made so far: they may fail, move `state.next` and rewrite `argv`.
   `ArgpParser.Parser` is the same parser as it runs, field by field and with `argv` permuted in place; every method
   is proved equal to its function of the state machine. What a parse does with the words, permuting or not, is stated
   for cooperative callbacks (`ArgpOrder.Cooperative`): none moves `state.next` or rewrites `argv`, an option is
   accepted by the parser it belongs to, an argument is accepted or answered with `ARGP_ERR_UNKNOWN` so that the next
   parser is asked, and any other key is handled or answered with `ARGP_ERR_UNKNOWN`. `argp_default_parser` beside a
   parser that takes words is one case (`UsualParsersCooperate`).
3. **Help** (`argp-standalone/argp-help.c`; `ArgpHol`, `ArgpHelpLookup`, `Odometer`, `ArgpUsage`, `ArgpPatterns`): the
   merged list of options with its shadowed short letters, against the parser's own search; and the usage patterns, a
   mixed-radix counter whose digits are bytes scattered over a tree.
4. **The mount table** (`booster/src/booster_fstab.c`; `Fstab*`): names encoded and decoded in place, entries written
   and read back, options looked up.
5. **The rolling checksum** (`libglusterfs/src/checksum.c`; `Checksum`), section 3 of the rsync technical report
   TR-CS-96-05.
6. **I/O vectors** (`libglusterfs/src/common-utils.h`; `IoVector`).

## Modelling decisions

- An item is a pointer (`handle`, 0 for null) with a `key`, its rank under the comparison function, which is taken as a
  total preorder; equal keys compare equal, and equal items are the same pointer.
- The two mirror branches of every fix-up are one method with a direction; `pa`/`da` are fixed-length sequences local
  to the operation. The 48 slots of `RB_MAX_HEIGHT` suffice for up to 2^24 - 2 items (`StackFits`), which is what
  operations that push require. Whether the allocator delivers is a parameter of `Probe`, `Insert` and `Replace`.
- Option keys and the special `ARGP_KEY_` values are kept apart, although `ARGP_KEY_ARG` is 0 in the source. Option
  arrays are taken as non-null where the source walks them, words as ASCII. `nextchar` is the rest of a word.
- `char` is signed, as the level bytes of the usage message and the checksum treat it; level bytes wrap from 127 to
  -128. Messages, `dgettext` and help filters are not modelled; an `args_doc` is printed as it stands.
- Files and words contain no zero byte. Numbers of a mount entry are unbounded integers. A file is the text before and
  after its position.
- I/O vectors point into one flat memory. Lengths do not overflow.
- `{:induction false}` stands on every lemma to which Dafny would apply an induction of its own: none needs it, and the
  proofs are steadier without.

## Where the code and its documentation disagree

- `state.next` can become `argc + 1`: a callback that answers `ARGP_KEY_ARGS` with `ARGP_ERR_UNKNOWN` and moves
  `state.next` to `argc` all the same lets the next one accept the argument there (`NextCanExceedArgc`; exactly when:
  `Overshoot`). Nothing is read beyond the vector then, and no callback that leaves `state.next` alone when it rejects
  can cause it (`RunSafe`).
- After a successful `ARGP_KEY_ARGS`, `state.next` always becomes `argc`; a comment in the code and `argp.h` say so only
  for callbacks that have not changed it. The two differ if and only if the callback moved it to another place than
  `argc` (`ArgsTakesAll`); words that it left for later are then lost (`SecondWordLost`).
- After `ARGP_KEY_ERROR`, `ARGP_KEY_FINI` still follows for every parser (`FiniAfterError`; `LifeCycle`); `argp.h` says
  no further calls are made. A wrong option is a case (`WrongOptionTold`, `UnknownOptionTold`).
- `arg_ebadkey` is not cleared when a short option's parser is called. A short option that its parser rejects goes
  unreported if and only if an argument was dealt with before it and no long option since, and all words are used or
  the caller takes the rest back (`RejectedShort`, `RejectedOptionUnreported`; one round alone: `BadArgMeaning`).
- The generation test of a traverser misses the changes of a table if and only if their number is a positive multiple
  of 2^64 (`GenerationTells`); in all other cases `Next` and `Prev` are right.
- The usage loop ends if and only if no `args_doc` has more than 128 lines (`UsageEnds`, `TooManyLines`).
- Help and parser mean the same short option if and only if the first option with that key is not an `OPTION_DOC`
  entry, in whatever order the help list is sorted (`AnyOrderAgrees`, `LookupsDiffer`).
- `encode_name` encodes a newline only in names that also hold a space, a tab or a backslash; other names with a
  newline break their line (`EncodedName`, `NewlineNameBreaks`; exactly when an entry comes back:
  `EntryRoundTripExact`).
- A line that does not fit the buffer is cut, and most such entries are lost; which ones come back is part of
  `EntryRoundTripExact` (`OneTooLong` is a special case).
- A line keeps the numbers of the entry read before it if and only if its fourth field is followed by a separator and
  then by white space only (`StaleNumbers`, `StaleLine`).
- `get_option_value` takes the value of a later option for an option without one (`ForeignValue`; exactly when:
  `OwnValueReturned`), and cuts a name with '=' at that '=' (`NameCutOff`).

## Model

| member | source | states |
|---|---|---|
| `RbTree.Rotate` | contrib/rbtree/rb.c:143-156 | a rotation at a focus changes the heap into the rotated tree, keeping the in-order sequence and every node |
| `RbTree.RedBlackPlug` | contrib/rbtree/rb.c:63-199 | a tree in its context is red-black if and only if the plugged-together tree is |
| `RbTree.FlatPlug` | contrib/rbtree/rb.c:63-199 | the in-order sequence of context and subtree is that of the whole tree |
| `RbOrder.HeightBound` | contrib/rbtree/rb.h:52-55 | 2 to the height of a red-black tree of n items is at most (n + 1) squared |
| `RbOrder.StackFits` | contrib/rbtree/rb.h:52-55 | with at most 2^24 - 2 items the height leaves one of the 48 slots free, the extra slot of the red-sibling case included |
| `RbOrder.HoleFits` | contrib/rbtree/rb.c:100-111 | the place where the search ends is the only place for the key, and the key occurs nowhere in the tree |
| `RbInsert.RecolorUncle` | contrib/rbtree/rb.c:128-134 | the red-uncle case moves the violation two levels up and keeps everything else |
| `RbInsert.RotateInner` | contrib/rbtree/rb.c:142-148 | the first rotation of the inner-grandchild case, as link writes: the subtree becomes the one of the outer case |
| `RbInsert.InnerLaw` | contrib/rbtree/rb.c:139-149 | that subtree still has its one red violation, at the same place in the order, and all its nodes, so that the outer case finishes the work |
| `RbInsert.RotateOuter` | contrib/rbtree/rb.c:137-157 | the outer-grandchild case likewise |
| `RbInsert.FixInsert` | contrib/rbtree/rb.c:124-195 | from a red node hung anywhere, the loop restores a red-black tree with the same in-order sequence, for both sides |
| `RbDelete.RotateRedSibling` | contrib/rbtree/rb.c:324-339 | the red-sibling case turns into a black-sibling case one level down |
| `RbDelete.RecolorSibling` | contrib/rbtree/rb.c:341-345 | with two black nephews the deficit moves one level up |
| `RbDelete.RotateNear` | contrib/rbtree/rb.c:348-357 | a red near nephew becomes a red far nephew, the deficit staying where it was |
| `RbDelete.RotateFar` | contrib/rbtree/rb.c:359-366 | a red far nephew ends the deficit |
| `RbDelete.FixDelete` | contrib/rbtree/rb.c:309-420 | from a subtree one black node short, the loop restores a red-black tree with the same in-order sequence, on both sides, within the stack |
| `RbSplice.Splice` | contrib/rbtree/rb.c:260-305 | in each of the three relinking cases the node leaves the tree, its successor inherits its colour, and the stack ends exactly at the place that lost a node |
| `RbSplice.FixAfterSplice` | contrib/rbtree/rb.c:307-420 | after the relinking, the tree is red-black again whatever colour was lost |
| `RbTable.Table.constructor` | contrib/rbtree/rb.c:36-58 | an empty valid table |
| `RbTable.Table.Find` | contrib/rbtree/rb.c:63-83 | an item is returned if and only if one with that key is in the table, and it is that item |
| `RbTable.Table.Descend` | contrib/rbtree/rb.c:244-257 | the search leaves exactly the ancestors of the match, or of the empty place, on the stack |
| `RbTable.Table.Probe` | contrib/rbtree/rb.c:88-199 | keeps the table valid; an existing slot is returned and nothing changes; without memory nothing changes; otherwise exactly the new item is added at a fresh node |
| `RbTable.Table.Insert` | contrib/rbtree/rb.c:205-211 | returns the duplicate, unless it is the same pointer, and otherwise adds the item |
| `RbTable.Table.Replace` | contrib/rbtree/rb.c:216-229 | puts the item in the place of its duplicate, which it returns, or adds it |
| `RbTable.Table.Delete` | contrib/rbtree/rb.c:232-428 | keeps the table valid; removes exactly the matching entry and returns its item, or changes nothing and returns none; the count follows |
| `RbTraverser.Refresh` | contrib/rbtree/rb.c:432-457 | the rebuilt stack is exactly the ancestors of the current node in the current tree |
| `RbTraverser.GenerationTells` | contrib/rbtree/rb.c:616-630 | generation numbers are equal if and only if the changes in between are a multiple of 2^64, so that below that number the test is exact |
| `RbTraverser.Neighbour` | contrib/rbtree/rb.c:631-664 | down and outwards, or up: the node found is next to the current one in order, and the stack fits it |
| `RbTraverser.Traverser.constructor` | contrib/rbtree/rb.c:460-467 | a traverser at the null item |
| `RbTraverser.Traverser.First` | contrib/rbtree/rb.c:472-494 | the least item, or none |
| `RbTraverser.Traverser.Last` | contrib/rbtree/rb.c:499-521 | the greatest item, or none |
| `RbTraverser.Traverser.Find` | contrib/rbtree/rb.c:528-558 | selects the item with the key, with an exact stack, or the null item |
| `RbTraverser.Traverser.Insert` | contrib/rbtree/rb.c:567-588 | inserts and selects; the generation one behind makes the next move rebuild the stack |
| `RbTraverser.Traverser.Copy` | contrib/rbtree/rb.c:592-611 | a valid traverser at the same item, also when the stack was not worth copying |
| `RbTraverser.Traverser.Next` | contrib/rbtree/rb.c:616-664 | from any valid traverser, however the table changed since, unless the number of changes is a positive multiple of 2^64: the next item of the current table in order, from the null item the least |
| `RbTraverser.Traverser.Prev` | contrib/rbtree/rb.c:669-717 | the item before it, likewise, from the null item the greatest |
| `RbTraverser.Traverser.Current` | contrib/rbtree/rb.c:720-726 | the current item as the table holds it |
| `RbTraverser.Traverser.ReplaceCurrent` | contrib/rbtree/rb.c:731-741 | the current item is exchanged and nothing else, provided the order stays |
| `RbOps.RunOp` | contrib/rbtree/rb.c:63-428 | an insert, replace or delete acts on the table as on a finite map and returns what that says, and every other item keeps its node |
| `RbRuns.ChangeStep` | contrib/rbtree/rb.c:63-428 | any change leaves all traversers valid, at the same items, except those whose item it deletes |
| `RbRuns.InsertItem` | contrib/rbtree/rb.c:567-588 | rb_t_insert acts as an insert into the map and moves the traverser to the item, and every other item keeps its node |
| `RbRuns.CopyStep` | contrib/rbtree/rb.c:592-611 | one of several traversers takes over the place of another, or of itself, and the others stay |
| `RbRuns.ReplaceItem` | contrib/rbtree/rb.c:731-741 | rb_t_replace by an item that fits between the neighbours, with the same key or another, acts as an update of the map, returns the old item, and moves no node |
| `RbRuns.RunSteps` | contrib/rbtree/rb.c:63-741 | every run of rb_find, rb_insert, rb_replace, rb_delete and all traverser operations on any number of traversers, interleaved in any way, deletes of current items included, answers as a finite map with cursors does |
| `RbCursors.RanDeterministic` | contrib/rbtree/rb.c:63-741 | that map with cursors leaves no choice: two runs of the same steps give the same answers and states |
| `RbDestroy.Destroy` | contrib/rbtree/rb.c:861-883 | ends on every tree, frees every node exactly once, and passes the non-null items to destroy in order |
| `RbCopy.CopyTree` | contrib/rbtree/rb.c:766-856 | a tree of fresh nodes with the same shape and colours and the mapped items; the original is unchanged |
| `RbCopy.CopyTable` | contrib/rbtree/rb.c:766-856 | a valid table with the same count whenever the mapped items keep the order |
| `ArgpSafety.StepSafe` | argp-standalone/argp-parse.c:935-1195 | from every state that satisfies the invariant, and whatever the callbacks do within 0 to argc, a step that goes on keeps it |
| `ArgpSafety.RunSafe` | argp-standalone/argp-parse.c:938-960 | in every reachable state, after the clamping, 0 <= first_nonopt <= last_nonopt <= next <= argc + 1, and next <= argc unless a callback moved it while rejecting |
| `ArgpSafety.Overshoot` | argp-standalone/argp-parse.c:755-797 | an argument is accepted with next beyond argc if and only if it is accepted under ARG after some parser answered ARGS with ARGP_ERR_UNKNOWN and moved next to argc, and no reply since has moved it |
| `ArgpSafety.NextCanExceedArgc` | argp-standalone/argp-parse.c:755-797 | two parsers and one argument that do this, from parser_init on |
| `ArgpSafety.StepShrinks` | argp-standalone/argp-parse.c:962-1195 | for callbacks that never move next back, every step that goes on shrinks (options possible, words left, letters left) |
| `ArgpSafety.RunEnds` | argp-standalone/argp-parse.c:1247-1248 | so the main loop ends, after finitely many rounds |
| `ArgpLifecycle.LifeCycle` | argp-standalone/argp-parse.c:617-748 | every parse that gets past parser_init consists of INIT to every parser, options and arguments, NO_ARGS, END, SUCCESS or ERROR, and FINI to every parser, in this order; where the main loop leaves nothing to report and no word, NO_ARGS goes to all idle parsers and END to all, up to the first that fails for good, and nowhere else; SUCCESS goes to all, again up to a failure, exactly if there is no error, and ERROR to all otherwise |
| `ArgpLifecycle.KeysOfOneParser` | argp-standalone/argp.h:156-170 | each parser's calls match INIT (opt or ARG or ARGS)* NO_ARGS? END? (SUCCESS or ERROR)? FINI |
| `ArgpLifecycle.OrderOfKeys` | argp-standalone/argp-parse.c:617-748 | INIT goes in pre-order, END, SUCCESS and FINI in reverse pre-order, and SUCCESS and ERROR never both occur |
| `ArgpLifecycle.FiniAfterError` | argp-standalone/argp.h:168-170 | behind every ERROR call there is a FINI call for every parser |
| `ArgpEnding.RoundCredits` | argp-standalone/argp-parse.c:755-800 | args_processed goes up by the words that state.next has moved, for the group whose acceptance ended the round, and for no other |
| `ArgpEnding.CounterHistory` | argp-standalone/argp-parse.c:755-800 | over any number of rounds the counter of a group is still what it was if and only if the group has taken no word |
| `ArgpEnding.TookIsAccepted` | argp-standalone/argp-parse.c:755-800 | for callbacks that never move next back, a group has taken a word if and only if it has accepted an ARG or ARGS call of the trace |
| `ArgpEnding.NoArgsTold` | argp-standalone/argp-parse.c:669-691 | on whole parses that use up all words, NO_ARGS, where no answer to it is a failure, goes to exactly the parsers that have taken no word |
| `ArgpEnding.TakenBack` | argp-standalone/argp-parse.c:790-797 | after an accepted argument options stay over if and only if words were taken for it |
| `ArgpOrder.ScanConserves` | argp-standalone/argp-parse.c:935-1195 | sorting words into options, "--", plain words and the rest loses and invents none |
| `ArgpGrammar.ClusterMeaning` | argp-standalone/argp-parse.c:952-1012 | a cluster reads as given if and only if it is some number of options without arguments, and perhaps one more whose argument is the rest of the word, or the next word, or left out if optional |
| `ArgpGrammar.LongMeaning` | argp-standalone/argp-parse.c:1115-1189 | a long option word reads as given if and only if its option is found and takes what follows the first "=", or the next word if it must have an argument, or nothing |
| `ArgpGrammar.OfferMeaning` | argp-standalone/argp-parse.c:764-780 | a word goes to the parsers in order, with ARG and then ARGS for each that refuses, up to the first that takes it, or to all |
| `ArgpOrder.ExchangeLaid` | argp-standalone/argp-parse.c:812-867 | exchange moves the skipped words behind the options after them and relocates its marks |
| `ArgpOrder.RunCluster` | argp-standalone/argp-parse.c:952-1012 | all letters of a cluster are handled in order, with their arguments, for cooperative callbacks |
| `ArgpOrder.PermuteFrom` | argp-standalone/argp-parse.c:935-1200 | from any point between two words, the rest of a permuting parse sorts the remaining words in |
| `ArgpOrder.PermuteOrder` | argp-standalone/argp-parse.c:935-1200 | with cooperative callbacks a permuting parse ends with argv a permutation (options with their arguments in order, "--", plain words in order), the calls are the options in order and then the offers of the words in order, and next stands behind the last word taken |
| `ArgpOrder.PermuteHeard` | argp-standalone/argp-parse.c:755-797 | the accepted calls of such a parse are the options in order, then the plain words in order, each taken by one parser, up to the first that none takes |
| `ArgpLookup.MatchMeaning` | argp-standalone/argp-parse.c:349-373 | exact for the name before '=', partial for its proper prefixes, and for nothing else |
| `ArgpLookup.ValueMeaning` | argp-standalone/argp-parse.c:1133-1135 | name, '=' and value make up the word |
| `ArgpLookup.FindLongMeaning` | argp-standalone/argp-parse.c:374-424 | the first option of that name, else the only one it abbreviates, else none |
| `ArgpLookup.FindShortFirst` | argp-standalone/argp-parse.c:318-338 | the first option with the key in the row of all options |
| `ArgpLookup.ClassifyMeaning` | argp-standalone/argp-parse.c:874-929 | for every word, both ways: what makes it an argument, the word "--", a long option with its text, a short cluster, or with ARGP_LONG_ONLY a long option behind one dash |
| `ArgpLookup.QuoteMark` | argp-standalone/argp-parse.c:1091-1113 | the word "--" ends the options, and quoted and next stand behind it in the new argv |
| `ArgpLookup.LookedAtAgain` | argp-standalone/argp-parse.c:936-1050 | a word is taken for an argument if and only if it looks like one, or options are over and it stands at or behind the quoted place; moved back before that place, next makes options count again |
| `ArgpLookup.BadArgMeaning` | argp-standalone/argp-parse.c:930-935 | arg_ebadkey tells arguments from options if and only if no short option's parser was called with the flag still set |
| `ArgpConvert.Sizes.Calc` | argp-standalone/argp-parse.c:525-548 | counts groups and child inputs of the tree |
| `ArgpConvert.SizesSuffice` | argp-standalone/argp-parse.c:436-548 | convert_options writes exactly as many groups as calc_sizes counts and hands out no more child inputs |
| `ArgpConvert.Converter.ConvertOptions` | argp-standalone/argp-parse.c:436-488 | fills the row from the given index on, leaving what is before it, and returns the next free index |
| `ArgpConvert.ConvertTree` | argp-standalone/argp-parse.c:436-488 | the row is the tree in pre-order; each parent comes before its children and is the group of the argp above, if that has one; child input slices follow one another |
| `ArgpConvert.OwnSlots` | argp-standalone/argp-parse.c:619-637 | a group with a parent reads a slot of its parent's slice, the one of its own child number |
| `ArgpConvert.SlotsApart` | argp-standalone/argp-parse.c:619-637 | no two groups read the same slot |
| `ArgpConvert.ConvertAll` | argp-standalone/argp-parse.c:492-548 | sizes, then conversion: the tables are exactly filled |
| `ArgpConvert.HandDown` | argp-standalone/argp-parse.c:617-637 | when its turn comes, every group has as input what its parent left in that slot |
| `ArgpConvert.InputMeaning` | argp-standalone/argp-parse.c:619-637 | the root has the caller's input, a child what its parent's parser put into its slot; below a group without a parser the first child has the group's own input and the others none |
| `ArgpParser.ExchangeSegments` | argp-standalone/argp-parse.c:812-867 | the swapping loop rotates two adjacent segments exactly, in place |
| `ArgpParser.FindShortOption` | argp-standalone/argp-parse.c:318-338 | the nested loops return what the state machine's lookup does |
| `ArgpParser.CompareName` | argp-standalone/argp-parse.c:349-373 | the comparison loop decides as match_option's specification |
| `ArgpParser.FindLongOption` | argp-standalone/argp-parse.c:374-424 | the nested loops with their count of partial matches return what the specification does |
| `ArgpParser.Parser.CallGroup` | argp-standalone/argp-parse.c:227-244 | one callback: its return value, and what it does to next and argv |
| `ArgpParser.Parser.ExchangeSkipped` | argp-standalone/argp-parse.c:812-867 | exchange with its marks |
| `ArgpParser.Parser.ParseArgument` | argp-standalone/argp-parse.c:755-797 | parser_parse_arg refines the state machine |
| `ArgpParser.Parser.ShortOption` | argp-standalone/argp-parse.c:952-1012 | one letter of a cluster refines the state machine, the assertion on args_only included |
| `ArgpParser.Parser.LongOption` | argp-standalone/argp-parse.c:1115-1189 | a long option refines the state machine |
| `ArgpParser.Parser.PlainWord` | argp-standalone/argp-parse.c:1058-1089 | a word that is no option, in each of the three orderings, the assertion on last_nonopt included |
| `ArgpParser.Parser.QuoteWord` | argp-standalone/argp-parse.c:1091-1113 | the word "--", its assertion included |
| `ArgpParser.Parser.EndOfWords` | argp-standalone/argp-parse.c:1027-1047 | the end of the words |
| `ArgpParser.Parser.NextWord` | argp-standalone/argp-parse.c:935-1195 | parser_parse_next refines the state machine, all accesses in bounds, from every state that satisfies the invariant; how words are told apart is ClassifyMeaning |
| `ArgpParser.Parser.Rounds` | argp-standalone/argp-parse.c:1247-1248 | any number of rounds refines the state machine, whatever the callbacks do |
| `ArgpParser.Parser.MainLoop` | argp-standalone/argp-parse.c:1247-1248 | for every parse that ends, whatever the callbacks do, the loop computes the whole run |
| `ArgpParser.Parser.Start` | argp-standalone/argp-parse.c:617-652 | parser_init's calls and the first position |
| `ArgpParser.Parser.SettleError` | argp-standalone/argp-parse.c:665-706 | which error a parse ends with, and the NO_ARGS and END calls, of which LifeCycle and NoArgsTold say whom they reach |
| `ArgpParser.Parser.Finish` | argp-standalone/argp-parse.c:659-748 | parser_finalize refines the state machine |
| `ArgpParser.Parse` | argp-standalone/argp-parse.c:1207-1255 | for every parse that ends, argp_parse as a whole computes the outcome of the state machine, argv in place |
| `ArgpParser.OutcomeIsWhole` | argp-standalone/argp-parse.c:1207-1255 | with callbacks that never move next back every parse ends, and its outcome is that of the whole run |
| `ArgpWhole.OutcomeInOrder` | argp-standalone/argp-parse.c:1207-1255 | that outcome's calls go through the life cycle |
| `ArgpWhole.PermutingParse` | argp-standalone/argp-parse.c:1207-1255 | with cooperative callbacks, argp_parse on words that scan leaves argv sorted, program name first, and returns 0 if and only if the parsers take all plain words or the caller asked for the index, EINVAL otherwise |
| `ArgpWhole.PermutingHeard` | argp-standalone/argp-parse.c:1207-1255 | what the parsers accept in such a parse, from parser_init on: the options in order, then the words taken, in order |
| `ArgpWhole.UsualParsersCooperate` | argp-standalone/argp-parse.c:111-161 | a parser that takes options and words, beside others that answer ARGP_ERR_UNKNOWN to what is not theirs as argp_default_parser does, is cooperative and all words are taken |
| `ArgpRejects.ReturnValue` | argp-standalone/argp-parse.c:659-748 | an error of a parser in the main loop is returned as it is; an unknown option or left-over words give EINVAL; otherwise the result is what the NO_ARGS, END and SUCCESS calls answered, the first error among them or 0; ARGP_ERR_UNKNOWN never gets out |
| `ArgpRejects.FailFrom` | argp-standalone/argp-parse.c:935-1200 | from any point between two words, a wrong option anywhere behind it stops the parse with an error that is not suppressed |
| `ArgpRejects.AcceptsExactly` | argp-standalone/argp-parse.c:1202-1255 | with cooperative callbacks, argp_parse returns 0 for exactly the command lines that scan and whose words are all taken, or which scan and the caller asked for the index; EINVAL for all others |
| `ArgpRejects.WrongOptionTold` | argp-standalone/argp-parse.c:711-741 | after a wrong option every parser is called with ERROR and then with FINI |
| `ArgpRejects.UnknownOptionTold` | argp-standalone/argp-parse.c:711-741 | a parse in which that happens |
| `ArgpInTurn.InTurnFrom` | argp-standalone/argp-parse.c:935-1200 | when the parser does not permute, from any point between two words the rest of the parse goes through the words in order, up to the first word nobody takes or the first wrong option, and argv stays |
| `ArgpInTurn.InTurnParse` | argp-standalone/argp-parse.c:1207-1255 | with cooperative callbacks and REQUIRE_ORDER or RETURN_IN_ORDER, argp_parse leaves argv as it is, calls the parsers in the order of the words, and returns 0 for exactly the lines without a reported wrong option whose words are all used or given back, EINVAL otherwise |
| `ArgpFlag.FlagHistory` | argp-standalone/argp-parse.c:930-1195 | arg_ebadkey stands after n rounds if and only if one of them was about an argument or the end of the words and none behind it about a long option |
| `ArgpFlag.RejectedShort` | argp-standalone/argp-parse.c:659-706 | whatever the callbacks do, a short option rejected by its parser goes unreported if and only if the flag stands in that sense and all words are used or given back; it gives EINVAL otherwise |
| `ArgpWhole.RejectedOptionUnreported` | argp-standalone/argp-parse.c:1006-1012 | a parse that returns 0 although its only option was rejected |
| `ArgpArgs.ArgsTakesAll` | argp-standalone/argp-parse.c:783-788 | after an accepted ARGS next is argc whatever the callback did; that is what argp.h promises if and only if the callback left it or moved it to argc |
| `ArgpArgs.SecondWordLost` | argp-standalone/argp-parse.c:783-788 | a whole parse that returns 0 in which a parser takes one of two words, says so in next, and no parser ever sees the other |
| `ArgpHol.LettersNext` | argp-standalone/argp-help.c:487-493 | an option adds its letter exactly if it is the first to have it |
| `ArgpHol.Hol.constructor` | argp-standalone/argp-help.c:438-503 | make_hol: entries cover the options in order, each one option that is no alias with the aliases behind it, as many as were counted beforehand; letters are listed once, and each entry points at its own first letter |
| `ArgpHol.Hol.Append` | argp-standalone/argp-help.c:832-919 | hol_append: the merged list describes both rows, letters shadowed by the first left out, all pointers right, and its entries are still options with their aliases |
| `ArgpHol.Collect` | argp-standalone/argp-help.c:1366-1384 | argp_hol: the list describes all options of the tree in pre-order, one entry for every option that is no alias |
| `ArgpHol.EntriesCounted` | argp-standalone/argp-help.c:461-473 | such entries are as many as there are options that are no alias, which is what make_hol allocates |
| `ArgpHol.OneGrouping` | argp-standalone/argp-help.c:475-500 | there is only one way to put the options of a row into such entries |
| `ArgpHol.WalkFindsFirst` | argp-standalone/argp-help.c:551-574 | the test of hol_entry_short_iterate holds exactly for first uses |
| `ArgpHol.LetterShownOnce` | argp-standalone/argp-help.c:551-574 | no letter is listed twice, and walking the entries finds each on one option, the first in pre-order |
| `ArgpHol.OrderDoesNotMatter` | argp-standalone/argp-help.c:822-830 | whatever order the entries are sorted into, the same options are shown, each as often |
| `ArgpHol.ShownInAnyOrder` | argp-standalone/argp-help.c:822-830 | after sorting in any order, a walk shows for a letter exactly one option, the first short one in pre-order that has it, or none if none has |
| `ArgpHelpLookup.SameRow` | argp-standalone/argp-parse.c:318-338 | the parser's groups hold the same options in the same order as the help list |
| `ArgpHelpLookup.ParserFinds` | argp-standalone/argp-parse.c:318-338 | find_short_option returns the first option of that row with the key |
| `ArgpHelpLookup.HelpAgreesWithParser` | argp-standalone/argp-help.c:551-574 | parser and help mean the same option for a printable letter if and only if the first option with that key is no documentation entry |
| `ArgpHelpLookup.AnyOrderAgrees` | argp-standalone/argp-help.c:819-821 | for every sorting of the collected entries and every printable letter, the walk shows one option, the one that find_short_option returns, or none if that finds none, if and only if the first option with that key is no documentation entry |
| `ArgpHelpLookup.LookupsDiffer` | argp-standalone/argp-help.c:551-574 | an argp for which find_short_option returns one option and the walk over its help list shows another |
| `Odometer.IncCounts` | argp-standalone/argp-help.c:1446-1461 | a carry adds one to the value of the digits; from the last value all go back to zero and the carry goes out |
| `Odometer.WideNeverCarries` | argp-standalone/argp-help.c:1446-1461 | a digit of more than 128 lines never passes a carry on |
| `Odometer.ValueDetermines` | argp-standalone/argp-help.c:1410-1462 | different combinations have different values |
| `ArgpUsage.Choose` | argp-standalone/argp-help.c:1421-1437 | goes to the line the level stands for and tells whether there are more |
| `ArgpUsage.AdvanceIsInc` | argp-standalone/argp-help.c:1442-1461 | the recursive walk is one step of a counter whose digits are the levels, children before their parent |
| `ArgpUsage.ArgsUsage` | argp-standalone/argp-help.c:1409-1462 | prints the pattern of the level bytes, which PatternPrints describes by lines, and advances the bytes in place |
| `ArgpPatterns.LinesAre` | argp-standalone/argp-help.c:1421-1437 | if newline-free lines joined by newlines make up a string, they are the lines the code finds, by number |
| `ArgpPatterns.PatternPrints` | argp-standalone/argp-help.c:1409-1440 | a pattern is one line of every args_doc of the tree in pre-order: the one with the number of its level byte, or the only one |
| `ArgpPatterns.NextVisit` | argp-standalone/argp-help.c:1409-1462 | a round goes from combination k to combination k + 1, or from the last to all zeros |
| `ArgpPatterns.Usage` | argp-standalone/argp-help.c:1605-1648 | with every args_doc split into its lines, the patterns printed are exactly the choices of one line from each args_doc in pre-order, each choice once; the k-th is combination k of the level bytes, which are all zero in the end |
| `ArgpPatterns.EachCombinationOnce` | argp-standalone/argp-help.c:1605-1648 | every combination is printed in exactly one round |
| `ArgpPatterns.OwnLineSlowest` | argp-standalone/argp-help.c:1442-1461 | an argp moves on to its next line only after all combinations below it have been printed |
| `ArgpPatterns.EarlierChildFaster` | argp-standalone/argp-help.c:1442-1461 | of two children the earlier one moves faster |
| `ArgpPatterns.UsageEnds` | argp-standalone/argp-help.c:1605-1648 | the loop ends if and only if no args_doc has more than 128 lines |
| `ArgpPatterns.TooManyLines` | argp-standalone/argp-help.c:1605-1648 | one for which it does not |
| `FstabNames.NameRoundTrip` | booster/src/booster_fstab.c:79-125 | decode_name undoes encode_name, for every string |
| `FstabNames.EncodedName` | booster/src/booster_fstab.c:206-262 | no space or tab, at most four times as long, and a newline stays exactly in names with nothing else to encode |
| `FstabNames.DecodeMeaning` | booster/src/booster_fstab.c:84-121 | up to the first backslash nothing changes; there \040, \011, \012, \\ and \134 stand for space, tab, newline and twice backslash, and a backslash that begins none of them for itself |
| `FstabNames.EncodeMeaning` | booster/src/booster_fstab.c:221-260 | space, tab, newline and backslash become \040, \011, \012 and \\, and everything else stays |
| `FstabNames.LeftAlone` | booster/src/booster_fstab.c:210-219 | a name is left as it is if and only if it has no space, tab or backslash |
| `FstabNames.ReadChar` | booster/src/booster_fstab.c:84-121 | the tests at the read pointer decide the next character without passing the terminator |
| `FstabNames.DecodeInPlace` | booster/src/booster_fstab.c:78-125 | the decoded name replaces the encoded one in place, the write pointer never ahead of the read pointer, and nothing else changes |
| `FstabNames.EncodeInto` | booster/src/booster_fstab.c:221-260 | the code is written within four times the length and a terminator |
| `FstabNames.EncodeName` | booster/src/booster_fstab.c:210-262 | encode_name with its shortcut |
| `FstabTable.NumbersRoundTrip` | booster/src/booster_fstab.c:179-188 | printed numbers are scanned back, negative ones included |
| `FstabTable.EntryRoundTrip` | booster/src/booster_fstab.c:131-191 | an entry written is the next one read, whatever was read before |
| `FstabTable.TableRoundTrip` | booster/src/booster_fstab.c:131-292 | any list of such entries is read back in order |
| `FstabLines.EntryMeaning` | booster/src/booster_fstab.c:131-191 | any line of four fields, with spaces and tabs around them as one likes, is read field by field, each decoded, and what follows is scanned for numbers |
| `FstabLines.SkippedLine` | booster/src/booster_fstab.c:159-163 | blank lines and comments, indented or not, are passed over |
| `FstabLines.TwoMeaning` | booster/src/booster_fstab.c:179-188 | two signed decimal numbers, each digit counted by its place, with white space before, between and behind |
| `FstabLines.OneMeaning` | booster/src/booster_fstab.c:179-188 | one number, if what follows it is no number |
| `FstabLines.NoneMeaning` | booster/src/booster_fstab.c:179-188 | end of input for white space alone, and no number for any other text that does not begin with one |
| `FstabLines.DecimalMeaning` | booster/src/booster_fstab.c:281-289 | the digits printed for a number are worth that number |
| `FstabCut.EntryRoundTripExact` | booster/src/booster_fstab.c:131-191 | for every entry, however long its line: it is read back if and only if no field keeps a newline, the first is not empty and does not start with '#', and either the line fits and no field is empty, or it does not fit and what is cut off is not missed |
| `FstabCut.CutRead` | booster/src/booster_fstab.c:141-188 | what may be cut off: a last number 0 and the blank before it; both numbers, if the entry read before has the same; numbers 0 0 with the blank before them, or with blanks for empty fields; and one backslash before them that ends the last field |
| `FstabCut.OneTooLong` | booster/src/booster_fstab.c:141-157 | a line one character too long comes back if and only if its last number is 0 |
| `FstabExact.NewlineNameBreaks` | booster/src/booster_fstab.c:206-262 | an entry with a newline in a name that is not read back |
| `FstabExact.CommentLost` | booster/src/booster_fstab.c:159-163 | an entry whose first field starts with '#' is skipped |
| `FstabExact.StaleNumbers` | booster/src/booster_fstab.c:179-188 | for every line: the entry does not depend on the one read before if and only if the fourth field is not followed by a separator and white space only; otherwise both numbers are those of the entry before |
| `FstabExact.StaleLine` | booster/src/booster_fstab.c:179-188 | a line that does so |
| `FstabReader.CutToken` | booster/src/booster_fstab.c:165-178 | strsep and decode_name on the line buffer: the token stands decoded where it was, the rest is untouched |
| `FstabReader.ParseInPlace` | booster/src/booster_fstab.c:165-188 | cutting up the buffer in place gives the entry of the line, all four fields intact |
| `FstabReader.Fstab.ReadLine` | booster/src/booster_fstab.c:141-157 | the next line, cut to the buffer, the rest of a long one dropped |
| `FstabReader.Fstab.Get` | booster/src/booster_fstab.c:131-191 | getent on the open file: the next entry and position, or the end |
| `FstabReader.Fstab.Add` | booster/src/booster_fstab.c:264-292 | addent appends the entry's line at the end of the file |
| `FstabOptions.OptionOccurs` | booster/src/booster_fstab.c:303-308 | for a comma-free name, an occurrence at the start of an element that is closed behind is that element's option, and the other way round |
| `FstabOptions.HasOption` | booster/src/booster_fstab.c:297-316 | for every name, finds the first place at the start of an element where the name stands, closed behind; none if there is none |
| `FstabOptions.StandsIsElement` | booster/src/booster_fstab.c:297-316 | for a comma-free name these places are the elements that are the option, alone or with a value |
| `FstabOptions.OptionValue` | booster/src/booster_fstab.c:339-368 | the text between the next '=' and the comma behind it |
| `FstabOptions.ValueOfOption` | booster/src/booster_fstab.c:339-416 | both calls together, for every name: the first such place and the value found from it; for names without '=' that is the option's own value if and only if it has one or no '=' follows |
| `FstabOptions.OwnValueReturned` | booster/src/booster_fstab.c:339-368 | the value found is the option's own if and only if it has one or no '=' follows at all |
| `FstabOptions.NameCutOff` | booster/src/booster_fstab.c:339-368 | for a name with '=' the value found begins behind the first '=' of the name |
| `FstabOptions.ForeignValue` | booster/src/booster_fstab.c:339-368 | an option that gets another one's value |
| `Checksum.WeakChecksum` | libglusterfs/src/checksum.c:35-60 | the unrolled loop computes the sum and the weighted sum of signed bytes modulo 2^16, packed, for every length |
| `Checksum.RollingLaw` | libglusterfs/src/checksum.c:35-60 | when the window slides by a byte, both halves of the new checksum follow from the old one and the two bytes |
| `Checksum.NextFour` | libglusterfs/src/checksum.c:46-50 | four steps of the simple recurrence are one step of the unrolled loop |
| `IoVector.Subset` | libglusterfs/src/common-utils.h:187-230 | the filling pass and the counting pass agree, zero-length boundary pieces included |
| `IoVector.TouchMeaning` | libglusterfs/src/common-utils.h:198-206 | a vector gets a piece if and only if it has a position in common with the range, ends included, and an empty one if that is all |
| `IoVector.SubsetHolds` | libglusterfs/src/common-utils.h:187-230 | the new vectors hold exactly the bytes from src up to dst, clipped to the total length |
| `IoVector.Length` | libglusterfs/src/common-utils.h:154-164 | the sum of the vector lengths |
| `IoVector.Unload` | libglusterfs/src/common-utils.h:233-244 | copies all vectors into the buffer, one behind the other, and nothing else |
| `IoVector.SubsetUnloaded` | libglusterfs/src/common-utils.h:187-244 | counting, filling and unloading gives that range of the unloaded original |

## Left out

- `rb_copy` when allocation or `copy` fails, with `copy_error_recovery`: nodes on the stack have no data then.
- `rb_assert_insert` and `rb_assert_delete` call `rb_insert` and `rb_delete` and assert on the result; the allocator functions pass on to `malloc` and `free`.
- `rb_delete`, third relinking case: its independent link writes are made in another order.
- RbRuns.RunSteps: three kinds of steps are skipped, namely the use of a traverser whose item was deleted, other than setting it anew, which reads freed memory; a replacement at the null item, which the source asserts against; and a replacement that breaks the order, which the comment on `rb_t_replace` forbids.
- `argp`: messages, `--HANG`, `exit`, the default and version argps, and the storage of short options for `ARGP_LONG_ONLY`, which is a parameter.
- `argp-help.c`: how entries are compared when they are sorted, clusters, wrapping and printing of texts.
- `argp-fmtstream.c`: line wrapping.
- ArgpParser.Parser.MainLoop: callbacks that move `state.next` back can keep the loop going for ever; for such a parse there is no result to state, and `Rounds` covers any number of its rounds.
- `booster_mount` and `booster_configure` read options and call the client library; the rest of booster, libglusterfs, glusterfsd, glusterfs-guts and the contributed FUSE library make system calls, keep caches and locks, and pass requests between translators.
- `gf_rsync_strong_checksum`: MD5.
- `iov_dup` and `iov_free`: copies and frees only.
