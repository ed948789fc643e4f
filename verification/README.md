# Verified models of the hard cores

Dafny models of the parts of this repository whose correctness cannot be seen from one function
body, with proofs of what they are for:

- the Kconfig expression rewriter (`scripts/kconfig/expr.c`, and its use in `menu.c`),
- both ends of UART message protocol v2 (`lvp/common/uart_message_v2.c`), down to the ring queue
  (`lvp/common/lvp_queue.c`) and the checksum (`base/src/crc32.c`),
- the IMA/DVI ADPCM codec (`3rdparty/adpcm/adpcm.c`),
- three small stateful cores: 64/32 division (`base/src/div64.c`), the audio context indices
  (`lvp/common/lvp_audio_in.c`) and the standby ratio (`lvp/common/lvp_standby_ratio.c`).

`dafny verify dfyconfig.toml` checks all of it.

## How the source maps to modules

| source | modules |
|---|---|
| `scripts/kconfig/expr.c`, `expr.h` | `KconfigExpr` (values, `expr_eliminate_yn`), `KconfigEq`, `KconfigEqReflexive`, `KconfigEqOrder` (the order of terms), `KconfigEqKeys` (what is compared), `KconfigEqCommon` (what is eliminated), `KconfigJoin`, `KconfigTransform`, `KconfigExtract`, `KconfigPath`, `KconfigDups`, `KconfigDupsProof`, `KconfigClash` (contradicting lists), `KconfigSettled` (what is left in the end), `KconfigNode` (nodes overwritten and reused in place), `KconfigRewriter` (the methods that share trans_count), `KconfigPrint` (tokens and grammar), `KconfigText` (characters and lexer) |
| `scripts/kconfig/menu.c` | `KconfigMenu` (which entry becomes a child), `KconfigNesting` (the tree), `KconfigTree` (what the finished tree looks like) |
| `base/src/crc32.c` | `Registers` (shift registers in general), `Crc32` (algebra), `Crc32Code` (generated table and loops), `Crc32Table` (the compiled-in table) |
| `lvp/common/lvp_queue.c` | `LvpQueues` |
| `lvp/common/uart_message_v2.c` | `UartFrame`, `UartReceive` (byte by byte), `UartQueue` (what a full queue drops), `UartReceivers` (chunks and DMA), `UartRoundTrip`, `UartRefused`, `UartMemory` (where bodies stay), `UartSenders`, `UartLine` (both ends), `UartCrcLink` (the real checksum), `UartPop` |
| `3rdparty/adpcm/adpcm.c` | `Adpcm`, `AdpcmTracking`, `AdpcmSettling` (beyond reach, and a constant signal), `AdpcmCode`, `AdpcmStream`, `AdpcmReplay` |
| `base/src/div64.c` | `Div64`, `Division` |
| `lvp/common/lvp_audio_in.c` | `AudioIn` |
| `lvp/common/lvp_standby_ratio.c` | `StandbyRatio` |

Pure code of the source is functions here, and code that changes state step by step is methods
with loops over fields and arrays, each proved against a function whose properties are then proved
as lemmas.

Conventions worth knowing before reading:

- A Kconfig valuation gives every symbol a tristate and a string and is `Valid` when boolean symbols
  are n or y, a boolean or tristate symbol's string is the name of its value, and a quoted constant's
  string is its text. Every configuration is one (`KconfigExpr.EveryConfiguration`). How
  `sym_calc_value` arrives at the values is not part of this model.
- `expr_eliminate_dups1` and `expr_eliminate_dups2` are called with two pointers into one tree. The
  pointers are paths from the root of that tree, so both calls change the same tree, as in C.
- In several places a recursive function is passed to a method as a ghost function value
  (`run`, `total`, `view`): the method is then proved from the few laws it needs.
- Unsigned C arithmetic is written out where it can wrap (the body size of a frame, the totals of the
  standby ratio, the CRC word).

## What was found

- `expr_eliminate_dups` may change a value: `(FOO || n) && !FOO` becomes n, but is m when FOO is m.
  It keeps the value under every valuation where that value is not m (`KconfigDupsProof.ModIsLost`,
  `KconfigDupsProof.ContradictionStep`).
  It is exact wherever every contradiction it finds is in a list that is not m
  (`KconfigDupsProof.SettledExact`).
- `expr_eq` is reflexive and symmetric. Without y and n among the operands it compares expressions up to
  the order and nesting of their lists, exactly (`KconfigEqKeys.KeyExact`). With such operands further in
  it is not transitive: `(A && y) || (B && y)` equals `A || (B && y)`, which equals `A || B`, but these two
  are not equal (`KconfigEqOrder.NotTransitive`). The order of terms never matters where it is transitive
  on them, nor for two terms (`KconfigEqOrder.Rearranged`, `KconfigEqOrder.TwoTerms`); for three terms
  `KconfigEqOrder.ThreeTerms` says exactly when it does.
- On trees in normal form without constant operands the loop of `expr_eliminate_dups` leaves no list with
  the same term twice or with a list term and all terms of its negation
  (`KconfigSettled.SettledIrredundant`). Constant operands of its argument stay exactly if no turn counts
  anything, since `expr_eliminate_yn` is only called after one that does (`KconfigSettled.SettledNormal`).
- `expr_trans_compare` to y or n compares the value of the expression with every m symbol read as the
  opposite of what it is compared to. A decided value is always compared rightly; an m value is compared
  rightly exactly when it is not read as the constant (`KconfigMenu.TransCompareExact`).
- So the menu test may make an entry a child of a hidden parent: after an entry BAR whose prompt depends
  on `FOO = n`, one that depends on `!FOO && !BAR` becomes its child, and is shown without it exactly when
  FOO is m and BAR is not y (`KconfigMenu.ChildWithoutParent`). A condition that negates no tristate
  symbol is safe (`KconfigMenu.ImpliedSound`).
- On conditions without constant operands the menu test answers yes exactly when the entry's condition is
  an AND with all terms of the parent's (`KconfigMenu.ImpliedExact`).
- Two lone terms are never eliminated, so of two equal ones the second does not become a child
  (`KconfigMenu.LoneTermsNotCompared`).
- The tree that menu_finalize builds leaves no entry beside one that would take it in, where both come from
  the same block (`KconfigTree.FinalizeAllTidy`). What moves up out of a block without a prompt, such as
  `if`, is put behind the block and not tried again.
- What `expr_fprint` writes can be read back when all names are words of the lexer
  (`KconfigText.TextReadsBack`), and is then ambiguous exactly between symbols of the same name, such as a
  quoted constant and a declared symbol (`KconfigText.NamesSuffice`). A quoted constant may also hold the
  text of any other expression, such as `"FOO || BAR"`, and is written without its quotes
  (`KconfigText.QuotedExpression`, `KconfigText.QuotedOr`).
- The send callback treats a FIFO grant of zero bytes as the end of a header or checksum of which
  nothing has been sent, and loses it. Everything else is conserved, so the exact condition is
  `grant > 0 || !Skips()` (`UartSenders.Sender.SendCallback`, `UartLine.FirstGrantEmpty`).
- A queued message pack holds only the address of its body. The body stays as long as the bodies of its
  id fit in a row; when the offset goes back to the start, the next body overwrites it, and it survives
  exactly where the two say the same (`UartMemory.BodyStays`, `UartMemory.WrappedOver`).
- A frame reaches an idle receiver's queue as its message if and only if it has no body or its id is
  registered with a buffer that is large enough (`UartRefused.ArrivesIff`); whatever follows on the
  line, the message of a refused body never appears.
- `UartMessageAsyncRecvedPop` on a full queue loses the oldest pack unless that is the one asked for
  (`UartPop.LossShows`).

- The encoder reaches every constant signal within a hundred and two samples, from any state
  (`AdpcmSettling.Settles`).

## Model

| member | source | states |
|---|---|---|
| KconfigExpr.EveryConfiguration | scripts/kconfig/symbol.c:304-420 | the valuations the other rows speak of are all configurations: tristate symbols take every value, boolean ones n and y, others any string |
| KconfigExpr.ConstantsDiffer | scripts/kconfig/symbol.c:810-848 | two constants never have the same string |
| KconfigExpr.NoModEval | scripts/kconfig/expr.c:938-977 | without an m symbol no expression is m |
| KconfigExpr.EliminateYnCorrect | scripts/kconfig/expr.c:231-312 | expr_eliminate_yn keeps every value under every valuation, leaves no y or n operand, and shrinks the tree exactly when there was one |
| KconfigEq.ExprEqSound | scripts/kconfig/expr.c:189-229 | when expr_eq answers true the two expressions have the same value under every valuation |
| KconfigEq.PassSplits | scripts/kconfig/expr.c:130-162 | one elimination pass splits one and the same value off both sides |
| KconfigEq.CommonImplies | scripts/kconfig/expr.c:164-184 | if elimination leaves y on the right (or n on the left) the left value was never above the right one, whichever of the two passes ran |
| KconfigEq.MenuTestSound | scripts/kconfig/menu.c:352-361 | the menu implication test: a base condition reduced to y is implied by the entry condition under every valuation |
| KconfigEq.PassExhaustive | scripts/kconfig/expr.c:130-162 | after a pass no term of one side equals a term of the other, the constants y and n aside |
| KconfigEq.PassTerms | scripts/kconfig/expr.c:130-162 | a pass only replaces terms by the neutral constant |
| KconfigEq.PassCounted | scripts/kconfig/expr.c:130-162 | trans_count grows by the number of terms blanked on each side, and a pass that counts nothing changes nothing |
| KconfigEqReflexive.PassBlanks | scripts/kconfig/expr.c:130-162 | eliminating a tree against a tree that contains it blanks both |
| KconfigEqReflexive.ExprEqReflexive | scripts/kconfig/expr.c:189-229 | expr_eq recognises every expression as equal to itself |
| KconfigEqOrder.PassSwaps | scripts/kconfig/expr.c:130-162 | a pass leaves the same of two trees whichever is the first |
| KconfigEqOrder.ExprEqSymmetric | scripts/kconfig/expr.c:189-229 | expr_eq does not depend on which expression comes first |
| KconfigEqOrder.PassKeys | scripts/kconfig/expr.c:130-162 | where equality of terms is sameness of a key, a pass leaves the multiset difference of the keys on each side |
| KconfigEqOrder.Rearranged | scripts/kconfig/expr.c:203-214 | two lists with the same terms in any order and nesting are equal if expr_eq is transitive on these terms |
| KconfigEqOrder.TwoTerms | scripts/kconfig/expr.c:203-214 | two terms of any kind are equal in either order |
| KconfigEqOrder.ThreeTerms | scripts/kconfig/expr.c:203-214 | the list q, p, r does not equal r, q, p if and only if q equals p and r, these do not equal each other, and they are not reduced to one symbol |
| KconfigEqOrder.NotTransitive | scripts/kconfig/expr.c:189-229 | three lists on which it is not, with a constant operand further in |
| KconfigEqOrder.OrderMatters | scripts/kconfig/expr.c:203-214 | so an AND of them is not equal to one in another order |
| KconfigEqKeys.KeyExact | scripts/kconfig/expr.c:189-229 | without y and n as operands expr_eq answers true if and only if the expressions are the same up to the order and nesting of the terms of their lists, at any depth |
| KconfigEqKeys.PlainTransitive | scripts/kconfig/expr.c:189-229 | so it is transitive there |
| KconfigEqKeys.PlainSwapped | scripts/kconfig/expr.c:203-214 | and two lists may change places under their operator |
| KconfigEqKeys.NormalPlain | scripts/kconfig/expr.c:231-312 | what expr_transform and expr_eliminate_yn leave has no such operand |
| KconfigEqCommon.CommonTaken | scripts/kconfig/expr.c:164-184 | expr_eliminate_eq, with either pass, takes exactly the shared terms out of two lists of one operator or a list and a single test |
| KconfigEqCommon.WholeTaken | scripts/kconfig/expr.c:164-184 | a list that is a term of the other list is taken out whole or not at all |
| KconfigEqCommon.MenuTestExact | scripts/kconfig/menu.c:352-361 | a base condition is reduced to y if and only if the entry's condition is an AND that has all its terms |
| KconfigJoin.JoinOrExact | scripts/kconfig/expr.c:346-408 | a term merged by expr_join_or is the maximum of the two for all three values |
| KconfigJoin.JoinAndExact | scripts/kconfig/expr.c:410-502 | a term merged by expr_join_and is the minimum of the two for all three values |
| KconfigJoin.JoinExact | scripts/kconfig/expr.c:346-502 | both joins, and that the merged term is no larger than the pair it replaces |
| KconfigJoin.EqualTermsJoin | scripts/kconfig/expr.c:346-502 | equal terms always merge |
| KconfigJoin.TestsMerge | scripts/kconfig/expr.c:346-502 | which tests of one tristate symbol merge: in an OR any two equalities, in an AND any two of which one is an inequality |
| KconfigJoin.SymbolMerges | scripts/kconfig/expr.c:440-455 | with which of its tests a bare symbol merges |
| KconfigJoin.NegationMerges | scripts/kconfig/expr.c:391-397 | a symbol merges with its negation exactly in an OR, if it is boolean |
| KconfigTransform.TransformExact | scripts/kconfig/expr.c:636-771 | expr_transform keeps the exact tristate value under every valuation |
| KconfigTransform.TransformNormal | scripts/kconfig/expr.c:636-771 | afterwards negations stand only on symbols that are not constants |
| KconfigExtract.ExtractExact | scripts/kconfig/expr.c:826-875 | expr_extract_eq: each original is the join of the common part and its own rest, for all three values |
| KconfigExtract.PassMoves | scripts/kconfig/expr.c:848-875 | one step of the extraction moves one value from both trees to the common part |
| KconfigPath.PutElsewhere | scripts/kconfig/expr.c:504-554 | writing through one pointer into a list leaves what the other pointer reaches alone |
| KconfigPath.MergeTerms | scripts/kconfig/expr.c:530-551 | replacing two terms by the neutral constant and their join keeps the value of the list |
| KconfigDupsProof.Dups1Exact | scripts/kconfig/expr.c:504-554 | expr_eliminate_dups1 is exact for all three values |
| KconfigDupsProof.ContradictionStep | scripts/kconfig/expr.c:572-606 | where expr_eliminate_dups2 fires, it keeps the value of the list if and only if that value is not m |
| KconfigDupsProof.Dups2Keeps | scripts/kconfig/expr.c:556-610 | expr_eliminate_dups2 keeps every value that is not m, under every valuation |
| KconfigDupsProof.Dups1Counted | scripts/kconfig/expr.c:504-554 | a call that counts a change leaves a y or n operand; one that counts none changes nothing |
| KconfigDupsProof.RoundCorrect | scripts/kconfig/expr.c:612-634 | a round that counts a change strictly shrinks the tree after expr_eliminate_yn, and keeps n and y values |
| KconfigDupsProof.RoundIdle | scripts/kconfig/expr.c:612-634 | a round that counts nothing has found a tree in which no two terms of a list can be joined |
| KconfigDupsProof.MergedIdle | scripts/kconfig/expr.c:504-554 | on such a list expr_eliminate_dups1 does nothing |
| KconfigDupsProof.SettledCorrect | scripts/kconfig/expr.c:612-634 | the whole loop keeps every value that is not m, never grows the tree, and leaves fully merged lists |
| KconfigDupsProof.Dups2Exact | scripts/kconfig/expr.c:556-610 | where every contradiction it finds is in a list that is not m, expr_eliminate_dups2 keeps all three values |
| KconfigDupsProof.SettledExact | scripts/kconfig/expr.c:612-634 | so does the whole loop |
| KconfigDupsProof.QuietHarmless | scripts/kconfig/expr.c:612-634 | that holds everywhere if expr_eliminate_dups2 counts in no turn |
| KconfigClash.ExtractAll | scripts/kconfig/expr.c:826-875 | expr_extract_eq takes out all of an expression if and only if its terms are among those of the other, as often |
| KconfigClash.ContradictsExact | scripts/kconfig/expr.c:572-606 | the test of expr_eliminate_dups2 fires if and only if all terms of the negation are among those of the other expression, for both operators |
| KconfigClash.RoundConsistent | scripts/kconfig/expr.c:612-634 | a round that counts nothing has tried every list term against every part of its list, at every depth |
| KconfigClash.SettledConsistent | scripts/kconfig/expr.c:612-634 | so the loop ends with a tree on which none fires |
| KconfigSettled.SettledNormal | scripts/kconfig/expr.c:612-634 | the loop keeps the normal form, and constant operands stay exactly if there were some and no turn counts |
| KconfigSettled.SettledIrredundant | scripts/kconfig/expr.c:504-634 | in the result no list holds a term twice, up to the order inside it, or a list term and all terms of its negation |
| KconfigNode.Node.EliminateYn | scripts/kconfig/expr.c:231-312 | overwriting nodes with their own operands leaves a tree, of the same nodes, with the value of the specified rewrite |
| KconfigNode.TransformNode | scripts/kconfig/expr.c:636-771 | so does expr_transform, which drops, retypes and reuses nodes; what it adds is new |
| KconfigNode.Node.DeMorgan | scripts/kconfig/expr.c:716-733 | the node below a NOT is reused as the first of two NOTs without being shared |
| KconfigNode.Copy | scripts/kconfig/expr.c:62-97 | expr_copy: an equal tree of new nodes |
| KconfigRewriter.Rewriter.EliminateEqPass | scripts/kconfig/expr.c:130-162 | the pass over the nodes of two trees keeps them apart, is the specified pass, and adds exactly its count to trans_count |
| KconfigRewriter.Rewriter.EliminateBoth | scripts/kconfig/expr.c:164-184 | both passes and the clean-up, in place, with their count |
| KconfigRewriter.Rewriter.Equal | scripts/kconfig/expr.c:189-229 | expr_eq on copies, as specified, which `KconfigEqKeys.KeyExact` says the meaning of; trans_count stays as it was |
| KconfigRewriter.Rewriter.EliminateDups1 | scripts/kconfig/expr.c:504-554 | the two-pointer recursion on one tree, with its counter, is the specified rewrite |
| KconfigRewriter.Rewriter.EliminateDups2 | scripts/kconfig/expr.c:556-610 | the same for the second recursion, which does not return after its second split |
| KconfigRewriter.Rewriter.EliminateDups | scripts/kconfig/expr.c:612-634 | the loop on trans_count terminates and ends with the specified tree; it keeps every value that is not m, is no larger, and its lists are fully merged; trans_count is restored |
| KconfigDupsProof.ModIsLost | scripts/kconfig/expr.c:556-634 | a concrete expression that the loop turns into n, and that was m exactly where its symbol is m |
| KconfigPrint.PrintReadsBack | scripts/kconfig/expr.c:979-1123 | the printed tokens are a text of the grammar, and read as the expression up to associativity |
| KconfigPrint.PrintUnambiguous | scripts/kconfig/expr.c:1053-1123 | two expressions that print to the same tokens have the same value under every valuation |
| KconfigPrint.ReadExact | scripts/kconfig/zconf.y:469-476 | a reader accepts exactly the texts of the grammar, with the precedences and the left associativity declared in lines 76-79 |
| KconfigPrint.GrammarUnambiguous | scripts/kconfig/zconf.y:76-79 | with them every text is read as one expression |
| KconfigPrint.PrintOpens | scripts/kconfig/expr.c:1053-1123 | one pair of parentheses is printed for each operand that binds looser than the operator above it |
| KconfigPrint.PrintMinimal | scripts/kconfig/expr.c:979-1123 | no text of the expression, or of its left-nested form, has fewer parentheses |
| KconfigText.ScanText | scripts/kconfig/zconf.l:113-140 | the lexer takes the written characters apart into the names and signs they were written from |
| KconfigText.TextReadsBack | scripts/kconfig/expr.c:1126-1134 | the characters written for an expression are read as that expression, up to associativity, when its names are words of the lexer and are looked up as its symbols |
| KconfigText.NamesSuffice | scripts/kconfig/expr.c:1126-1134 | among symbols whose names are words of the lexer, the characters tell all expressions apart if and only if no two of the symbols share a name |
| KconfigText.QuotedExpression | scripts/kconfig/expr.c:1126-1134 | a quoted constant that holds the text of an expression is written like it |
| KconfigText.QuotedOr | scripts/kconfig/expr.c:1126-1134 | three symbols with different names whose text is ambiguous |
| KconfigMenu.TransCompareReads | scripts/kconfig/expr.c:877-936 | expr_trans_compare to y or n compares the value it reads, on every expression |
| KconfigMenu.DecidedIsRead | scripts/kconfig/expr.c:877-936 | a value that is not m is read as it is |
| KconfigMenu.TransCompareExact | scripts/kconfig/expr.c:877-936 | against y or n it is right if and only if the value is not m, or the m is not read as the constant |
| KconfigMenu.TransCompareMiddle | scripts/kconfig/expr.c:887-932 | against m it is right on a single test exactly below an even number of negations, on a list exactly when its value is n |
| KconfigMenu.PreparedReads | scripts/kconfig/menu.c:343-345 | the three rewrites of a menu condition give y or n: the value it is read as |
| KconfigMenu.ImpliedSound | scripts/kconfig/menu.c:352-361 | an entry found to depend on a parent is read as n wherever the parent is hidden; if it negates no tristate symbol it is hidden there |
| KconfigMenu.ImpliedExact | scripts/kconfig/menu.c:352-361 | when the test answers yes: the prepared condition of the entry is an AND with all terms of the parent's, in any order |
| KconfigMenu.ContainsExact | scripts/kconfig/expr.c:773-795 | expr_contains_symbol finds exactly the symbols that are printed |
| KconfigMenu.ContainsAll | scripts/kconfig/expr.c:773-795 | an expression in which it does not find a symbol has a value that does not depend on it |
| KconfigMenu.DependsExact | scripts/kconfig/expr.c:797-824 | expr_depends_symbol finds a symbol if and only if one of the conditions joined by && is a test of it alone that is n wherever it is |
| KconfigMenu.ChildWithoutParent | scripts/kconfig/menu.c:343-361 | an entry that passes both guards and the test and is shown without its parent, and exactly when |
| KconfigMenu.LoneTermsNotCompared | scripts/kconfig/expr.c:164-184 | the test never succeeds on two lone terms |
| KconfigMenu.Prepare | scripts/kconfig/menu.c:343-345 | the three rewrites in turn, trans_count restored |
| KconfigMenu.DependsSound | scripts/kconfig/expr.c:797-824 | an entry that depends on a symbol is hidden where that symbol is n |
| KconfigMenu.ChildSound | scripts/kconfig/menu.c:343-361 | a child is hidden where the symbol of its parent is n, or read as n wherever the parent is hidden |
| KconfigMenu.EntryDependsOn | scripts/kconfig/menu.c:343-361 | one turn of the loop: both guards, then the implication test, which is sound under every valuation |
| KconfigNesting.FinalizeAllShows | scripts/kconfig/menu.c:339-407 | building the tree loses no entry and keeps the order in which entries are shown; what the tree is like is `KconfigTree.FinalizeAllTidy` |
| KconfigNesting.GatherExact | scripts/kconfig/menu.c:341-371 | an entry takes in exactly those behind it that depend on it, up to the first that does not |
| KconfigNesting.HoistFlat | scripts/kconfig/menu.c:397-406 | afterwards only entries with a prompt have a list |
| KconfigNesting.HoistIdle | scripts/kconfig/menu.c:397-406 | a list in which that holds is left alone |
| KconfigNesting.ChildHidden | scripts/kconfig/menu.c:341-371 | every entry taken in is hidden where its parent is n, or is read as n wherever the prompt of the parent is |
| KconfigTree.FinalizeAllTidy | scripts/kconfig/menu.c:339-407 | in the result, at every depth, no entry is left directly behind one of its own block that would take it in, every list that was built holds only entries that depend on its owner or moved up to it, and only entries with a prompt have lists |
| KconfigTree.RootTidy | scripts/kconfig/menu.c:339-407 | the same below the root, whose own list is hoisted too |
| Registers.FeedConcat | base/src/crc32.c:166-223 | a register fed with a ++ b |
| Registers.FeedInjective | base/src/crc32.c:166-223 | a register that can be stepped back never forgets a difference |
| Registers.FeedWindow | base/src/crc32.c:198-206 | up to four bytes added at once are four byte updates |
| Crc32.BitStepLinear | base/src/crc32.c:66-77 | the bit step is linear over exclusive or |
| Crc32.UnstepBitCorrect | base/src/crc32.c:66-77 | the bit step loses nothing |
| Crc32.ByteStepSplits | base/src/crc32.c:168 | a table lookup on the low byte is eight bit steps on the whole register |
| Crc32.CrcConcat | base/src/crc32.c:220-223 | the crc of a ++ b is the crc of b started from the crc of a |
| Crc32.LocalChangeDetected | base/src/crc32.c:58-223 | two buffers of equal length that differ only within four consecutive bytes never have the same crc |
| Crc32.SealedIff | base/src/crc32.c:220-223 | four bytes are the crc of what precedes them if and only if the crc of it all is one constant |
| Crc32.SealBroken | base/src/crc32.c:220-223 | so data with its crc behind it cannot be changed within four consecutive bytes, those of the crc included, and still match |
| Crc32Code.MakePattern | base/src/crc32.c:63-68 | the pattern collected from the exponents is the polynomial |
| Crc32Code.MakeCrcTable | base/src/crc32.c:58-79 | entry i of the table is byte i after eight bit steps |
| Crc32Code.TableImplements | base/src/crc32.c:168 | a lookup in the generated table is eight bit steps of any register |
| Crc32Code.Crc32NoComp | base/src/crc32.c:178-217 | single bytes to a word boundary, whole words and the last bytes equal the byte-at-a-time form, for any alignment and length |
| Crc32Code.ComputeCrc32 | base/src/crc32.c:220-223 | crc32 with complement before and after |
| Crc32Table.CrcTableRight | base/src/crc32.c:81-150 | every entry of the compiled-in table is its byte after eight bit steps |
| Crc32Table.Crc32WithTable | base/src/crc32.c:220-223 | crc32 with the compiled-in table |
| LvpQueues.WriteAppends | lvp/common/lvp_queue.c:22-32 | writing at the tail, around the end or not, appends to the stored sequence |
| LvpQueues.PutRunIsBlock | lvp/common/lvp_queue.c:68-86 | a run of single puts stores the whole block exactly when LvpQueuePutBuffer accepts it |
| LvpQueues.GetRunIsBlock | lvp/common/lvp_queue.c:88-106 | a run of single gets delivers the block LvpQueueGetBuffer delivers |
| LvpQueues.LvpQueue.constructor | lvp/common/lvp_queue.c:13-20 | an empty queue of whole members |
| LvpQueues.LvpQueue.Put | lvp/common/lvp_queue.c:22-32 | appends one member unless the queue is full |
| LvpQueues.LvpQueue.Get | lvp/common/lvp_queue.c:34-44 | removes and delivers the oldest member |
| LvpQueues.LvpQueue.GetDataNum | lvp/common/lvp_queue.c:51-55 | the number of stored members |
| LvpQueues.LvpQueue.IsFull | lvp/common/lvp_queue.c:62-65 | full when one member's room is left |
| LvpQueues.LvpQueue.PutBuffer | lvp/common/lvp_queue.c:68-86 | the low bytes of a block, all or nothing |
| LvpQueues.LvpQueue.GetBuffer | lvp/common/lvp_queue.c:88-106 | a block of the oldest cells, all or nothing |
| LvpQueues.LvpQueue.PeekBuffer | lvp/common/lvp_queue.c:108-124 | the oldest cells, left in place |
| LvpQueues.LvpQueue.GetFreeSize | lvp/common/lvp_queue.c:126-130 | free cells, one of them never usable |
| UartFrame.HeaderForFields | lvp/common/uart_message_v2.c:773-779 | every field of a header that UartMessageAsyncSend fills in can be read back |
| UartReceive.PrepareValid | lvp/common/uart_message_v2.c:275-296 | a body that is accepted fits its buffer at the reserved place |
| UartReceive.SettleValid | lvp/common/uart_message_v2.c:307-391 | the turns that consume nothing end, and keep the receiver's invariant |
| UartReceive.ConsumeValid | lvp/common/uart_message_v2.c:393-541 | every byte keeps the invariant |
| UartReceive.RecvConcat | lvp/common/uart_message_v2.c:307-391 | chunk independence: c1 ++ c2 does what c1 then c2 do |
| UartReceive.BodyRun | lvp/common/uart_message_v2.c:442-516 | body bytes are stored in order at the reserved place, up to the end of the body |
| UartReceive.HeaderRun | lvp/common/uart_message_v2.c:416-440 | header bytes are copied in order and the header is judged after the last one |
| UartReceive.VefRun | lvp/common/uart_message_v2.c:519-541 | checksum bytes are shifted in, in order |
| UartQueue.StreamView | lvp/common/lvp_queue.c:22-32 | what a receiver pushes does not depend on its queue: a full one drops the later packs and changes nothing else |
| UartQueue.QueueTakesFirst | lvp/common/uart_message_v2.c:331-386 | a stream adds to the queue what an unlimited one would be given, as far as there is room |
| UartReceivers.Receiver.FindMagic | lvp/common/uart_message_v2.c:393-414 | the search loop does what its bytes do one by one |
| UartReceivers.Receiver.CheckHeader | lvp/common/uart_message_v2.c:416-440 | the same for the header loop, with its three answers |
| UartReceivers.Receiver.PrepareRecv | lvp/common/uart_message_v2.c:275-296 | room is reserved, or refused, as specified |
| UartReceivers.Receiver.CheckBody | lvp/common/uart_message_v2.c:442-516 | copying, starting DMA and ending a body all amount to the bytes taken |
| UartReceivers.Receiver.BodyVerification | lvp/common/uart_message_v2.c:519-541 | the same for the checksum loop |
| UartReceivers.Receiver.RecvCallback | lvp/common/uart_message_v2.c:307-391 | a chunk of any length has the effect of its bytes one by one; the loop terminates by remaining bytes, then rank of the state |
| UartReceivers.Receiver.DmaDone | lvp/common/uart_message_v2.c:543-550 | so has a finished DMA transfer, from the null test on |
| UartRoundTrip.HeaderArrives | lvp/common/uart_message_v2.c:393-440 | an idle receiver finds the magic word at its last byte and takes the whole header |
| UartRoundTrip.FrameWithArrives | lvp/common/uart_message_v2.c:307-541 | a frame with right or wrong checksum bytes is pushed as its message with those bytes, and its body is put where the registration says |
| UartRoundTrip.FrameArrives | lvp/common/uart_message_v2.c:307-541 | one frame is pushed as exactly its message and leaves the receiver idle |
| UartRoundTrip.FramesArrive | lvp/common/uart_message_v2.c:307-541 | a list of frames is pushed as exactly that list: order, cmd, seq, flags, body, body checksum and the place of the body |
| UartRefused.RefusedNeverArrives | lvp/common/uart_message_v2.c:275-296 | no stream makes the receiver push a message whose body it has no room for |
| UartRefused.ArrivesIff | lvp/common/uart_message_v2.c:275-391 | a frame arrives if and only if it has no body or its id has a large enough buffer |
| UartMemory.NextBodyKeeps | lvp/common/uart_message_v2.c:275-296 | one more body leaves another as it is if and only if it says the same where they overlap |
| UartMemory.BodyStays | lvp/common/uart_message_v2.c:275-296 | while the bodies of an id fit in a row behind the offset, each stays where its pack points |
| UartMemory.WrappedOver | lvp/common/uart_message_v2.c:281-283 | when the offset goes back, the body at the start survives exactly if the new one agrees with it |
| UartMemory.DamagedArrives | lvp/common/uart_message_v2.c:442-541 | a body of the right length is pushed with whatever checksum bytes follow it |
| UartSenders.WireIsFrame | lvp/common/uart_message_v2.c:759-788 | what is sent for a message whose length fits 16 bits is its frame |
| UartSenders.ResponseIds | lvp/common/uart_message_v2.h:20-36 | of the ids made from a type and a number, exactly those of type RSP are responses |
| UartSenders.Sender.AsyncSend | lvp/common/uart_message_v2.c:759-788 | accepted exactly when the port is ready, the body is there and the queue has room; then its bytes are pending last |
| UartSenders.Sender.SendCheck | lvp/common/uart_message_v2.c:584-604 | the next message pack becomes current, or sending ends |
| UartSenders.Sender.SendBodyPart | lvp/common/uart_message_v2.c:685-735 | bytes written, given to DMA and left make up the body |
| UartSenders.Sender.SendCallback | lvp/common/uart_message_v2.c:607-660 | sent plus pending bytes are conserved if and only if the grant is not empty or nothing is just due; all of the grant is used |
| UartSenders.Sender.DmaDone | lvp/common/uart_message_v2.c:676-683 | a finished transfer conserves them too |
| UartLine.Run | lvp/common/uart_message_v2.c:584-788 | over any interleaving of posts, grants and finished transfers, exactly the frames of the messages taken are sent or pending, in order, unless an empty grant lost some for good; all messages are taken if they fit the queue |
| UartLine.Numbered | lvp/common/uart_message_v2.c:777 | of the messages taken, each that is not a response has the number after that of the one before |
| UartLine.TakenNumbers | lvp/common/uart_message_v2.c:776 | a response is sent with its caller's number, a request or notification with the next one: the first number plus those before it, modulo 256 |
| UartLine.Flush | lvp/common/uart_message_v2.c:607-660 | with room again and again everything gets out and the sender goes idle |
| UartLine.FeedLine | lvp/common/uart_message_v2.c:307-391 | any chunk sizes, the receiver's own DMA transfers and a consumer in between amount to the stream; packs taken out and packs queued are those pushed, unless one met a full queue |
| UartLine.NothingLeft | lvp/common/uart_message_v2.c:498-512 | a stream of whole frames never leaves a DMA transfer waiting |
| UartLine.EndToEnd | lvp/common/uart_message_v2.c:252-788 | whatever was posted arrives as exactly the list the sender took, requests and notifications numbered in turn and responses with their caller's number (all of it, if it fits the send queue), under any grants, chunks and DMA splits on both sides and any pace of the consumer, unless an empty grant came at the wrong moment or a pack met a full queue, which is so exactly when packs are missing |
| UartLine.FirstGrantEmpty | lvp/common/uart_message_v2.c:662-674 | a first grant of no bytes: the header never goes out |
| UartCrcLink.LoadBytes | lvp/common/uart_message_v2.c:745-749 | the four bytes of the checksum in memory are the number |
| UartCrcLink.RegisterShifts | lvp/common/uart_message_v2.c:399 | the shift of the magic and checksum registers on the number is the shift of its bytes |
| UartCrcLink.HeaderCheck | lvp/common/uart_message_v2.c:133-136 | comparing checksum bytes is comparing the numbers |
| UartCrcLink.CarriedAccepted | lvp/common/uart_message_v2.c:252-264 | what arrives whole passes the check of UartMessageAsyncTick, on the memory as it is after all frames, if the bodies of its id fit in a row |
| UartCrcLink.DamageRejected | lvp/common/uart_message_v2.c:252-264 | a frame on the line whose body and checksum are damaged within four consecutive bytes arrives and then fails the check |
| UartCrcLink.DamagedHeaderDropped | lvp/common/uart_message_v2.c:416-440 | a header damaged so anywhere behind its magic word is dropped and the receiver is idle again |
| UartCrcLink.LinkValid | lvp/common/uart_message_v2.c:883-887 | any magic word but zero, such as the default one, makes a link all other rows apply to |
| UartCrcLink.Exchange | lvp/common/uart_message_v2.c:252-788 | two ends initialised alike: what is posted arrives with its number unless the receive queue was full, and a pack still queued passes the check unless its body was overwritten |
| UartPop.RecvedPop | lvp/common/uart_message_v2.c:205-250 | removes the first pack with the port and id, or nothing and answers -1; all others keep their order, the sentinel is gone; also what a full queue loses |
| UartPop.FirstMatchIsFirst | lvp/common/uart_message_v2.c:235-247 | the message pack removed is a match and none comes before it |
| UartPop.RestIsWithout | lvp/common/uart_message_v2.c:235-247 | what stays is the list without that one pack |
| UartPop.LossShows | lvp/common/uart_message_v2.c:215-224 | a pack is lost if and only if the queue was full and its oldest pack was not the one asked for |
| Adpcm.StepTableFits | 3rdparty/adpcm/adpcm.c:5-17 | the step table has all the other rows ask of one |
| Adpcm.TableGraded | 3rdparty/adpcm/adpcm.c:5-17 | the steps strictly increase, each by about a tenth |
| Adpcm.IndexGrows | 3rdparty/adpcm/adpcm.c:5-14 | a larger code never lowers the next index; below a whole step it goes down by one, from there up by two more for each |
| Adpcm.NibbleRoundTrip | 3rdparty/adpcm/adpcm.c:170-215 | testing the low four bits of anything that ends in a code gives the code back |
| AdpcmTracking.NearStep | 3rdparty/adpcm/adpcm.c:118-146 | one code keeps both indices equal and the decoder zero or one above the encoder |
| AdpcmTracking.NearForever | 3rdparty/adpcm/adpcm.c:80-220 | so does every code stream, and both stay in range |
| AdpcmTracking.CodesSplit | 3rdparty/adpcm/adpcm.c:80-157 | encoding in blocks is encoding the whole stream |
| AdpcmTracking.NearFromAnyBlock | app/uart_adpcm_demo/lvp_app_uart_adpcm_demo.c:201-209 | decoding may start at any block from the predictor and index saved before it |
| AdpcmTracking.CodeError | 3rdparty/adpcm/adpcm.c:91-117 | the difference a code stands for is within an eighth of a step, plus rounding, of the real one |
| AdpcmTracking.SampleTracked | 3rdparty/adpcm/adpcm.c:91-146 | a sample within twice the step is followed to within (step >> 3) + 2 by the encoder, clamping included; the decoder may be one higher |
| AdpcmSettling.BeyondReach | 3rdparty/adpcm/adpcm.c:91-146 | at twice the step or more the encoder moves by the largest difference towards the sample and not past it, and the index goes up by eight or to 88 |
| AdpcmSettling.WithinReach | 3rdparty/adpcm/adpcm.c:91-146 | below that it ends within (step >> 3) + 2, and the index goes down by at most one |
| AdpcmSettling.Settles | 3rdparty/adpcm/adpcm.c:80-157 | from any state a constant sample is within reach after 12 samples, within (step >> 3) + 2 from the 13th and within 2 from the 102nd |
| AdpcmSettling.DecoderSettles | 3rdparty/adpcm/adpcm.c:80-220 | and so does the decoder, at most one higher |
| AdpcmCode.Codec.Pcm2Adpcm | 3rdparty/adpcm/adpcm.c:80-157 | the loop writes the codes of the samples, four to a word, and moves the predictor as specified |
| AdpcmCode.Codec.Adpcm2Pcm | 3rdparty/adpcm/adpcm.c:159-220 | the loop decodes the codes of the bytes, low nibble first |
| AdpcmStream.CodesReadBack | 3rdparty/adpcm/adpcm.c:147-215 | the decoder reads the encoder's codes in order, whatever byte follows |
| AdpcmStream.TransferStream | 3rdparty/adpcm/adpcm.c:80-220 | over every stream of blocks of a multiple of four samples the decoder stays within one of the encoder |
| AdpcmReplay.Replay | app/uart_adpcm_demo/lvp_app_uart_adpcm_demo.c:201-209 | a decoder set to what was saved with any block decodes the stored words from there on to within one of the encoder |
| Div64.Align | base/src/div64.c:37-40 | the doubling loop keeps divisor and digit in proportion below 64 bits |
| Div64.Div6432 | base/src/div64.c:22-53 | quotient and remainder, for every 64-bit number and nonzero 32-bit base |
| Div64.DoDiv | include/utility/div64.h:27-38 | both paths of do_div agree on quotient and remainder |
| AudioIn.DistanceStep | lvp/common/lvp_audio_in.c:247 | the loop test holds exactly at distance zero, and each report brings the writer one nearer |
| AudioIn.Capture.RecordCallback | lvp/common/lvp_audio_in.c:211-277 | an interrupt reports fewer contexts than the hardware's buffer holds and ends at the hardware position, or where one more report would break write <= N + 1 or write - read <= N - gap |
| AudioIn.Capture.UpdateReadIndex | lvp/common/lvp_audio_in.c:561-571 | the reader moves, forward or back, exactly when it ends between zero and the writer; forward always keeps the protocol, and back exactly if the writer was near enough |
| AudioIn.Run | lvp/common/lvp_audio_in.c:211-277 | over every interleaving: read <= write, consecutive reports between restarts, and write <= N + 1 or write - read <= N - gap |
| StandbyRatio.WindowMoves | lvp/common/lvp_standby_ratio.c:41-61 | writing d seconds from the index on keeps the ring the last window of the timeline |
| StandbyRatio.Ratio.Record | lvp/common/lvp_standby_ratio.c:29-63 | the ring stays the last window of seconds and the totals count all of them |
| StandbyRatio.Ratio.Suspend | lvp/common/lvp_standby_ratio.c:65-71 | only the clock is looked at |
| StandbyRatio.Ratio.Resume | lvp/common/lvp_standby_ratio.c:74-84 | the time since is recorded as standby |
| StandbyRatio.Ratio.CountRealTime | lvp/common/lvp_standby_ratio.c:106-122 | the ratio r of n standby seconds in a window of w: w * r <= 1000 * n < w * (r + 1) |
| StandbyRatio.AfterStandby | lvp/common/lvp_standby_ratio.c:74-122 | resumed after a whole window of standby it reports 1000 |
| StandbyRatio.AfterRunning | lvp/common/lvp_standby_ratio.c:106-122 | after a whole window without standby it reports 0 |

## Left out

- Kconfig node memory: `expr_copy`, `expr_eliminate_yn`, `expr_transform`, `expr_eliminate_eq` and
  `expr_eq` are also proved on nodes in the heap; the duplicate elimination, whose two pointers lead
  into one tree, works on a tree that is a value with two paths for the pointers, and
  `expr_extract_eq`, the joins, `expr_trans_compare` and printing are on values only. Freeing is left out.
- `E_LIST`, `E_RANGE`, unnamed choice symbols, `expr_simplify_unmet_dep` and `expr_trans_bool`.
- Menu entries are values; that menu_finalize rewrites their conditions from the top down, adds to
  dependencies of symbols, and completes choices is not modelled.
- The lexer is modelled for text without quotes, comments and line ends.
- Evaluating symbols, reading and writing configuration files, and the other front ends.
- UART, DMA, cache, clock, power and interrupt drivers: a driver is a step that grants room, delivers a
  chunk, or ends a transfer. Interrupts during UartMessageAsyncRecvedPop are not modelled.
- UART ports: one port at a time; the receive queue shared by two ports and the port number in a pack
  are only modelled where UartMessageAsyncRecvedPop looks at it.
- UartReceivers.Receiver.DmaDone: the source reads through the null buffer pointer it is given (line 446) before it tests it; the model starts at the test.
- UART buffers: those of different registrations are taken not to overlap.
- UART registration, initialisation and shutdown during a transfer, send callbacks, and the dispatch of
  UartMessageAsyncTick after its checksum test.
- UartSenders.Sender.AsyncSend: the memory a body address points at is taken to stay unchanged until the message is sent.
- ADPCM blocks whose length is not a multiple of four: the encoder moves its predictor over the tail but writes no code for it.
- AudioIn.Capture.UpdateReadIndex: indices that reach 32 bits are not modelled.
- AudioIn.Run: the consumer only moves forward, as every caller does.
- AudioIn.Capture.RecordCallback: the VAD flags and the FFT variant of the same loop are not modelled.
- StandbyRatio: the average ratio of LvpCountAverageStandbyRatio, which is floating point.
- Voice activity detection, neural network code, boot, LEDs and demo applications.
