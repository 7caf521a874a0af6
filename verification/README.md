# Verified models of the ESP8266 RTOS SDK's stateful components

Dafny models of seven parts of the SDK, each with proofs of what the part is for. `dafny verify dfyconfig.toml`
checks the whole project.

| directory | models | main results |
|---|---|---|
| `ring/` | the ring buffer in its three modes | in every sequence of sends, one-part and two-part receives and out-of-order returns the items come out in order and unaltered, no unreturned byte is overwritten and no assertion fires, as long as no receive enters one state that is characterised exactly and shown to be reachable; when the size queries are exact |
| `kconfig/` | the Kconfig expression rewriter and automatic submenus | every rewrite keeps the value in every valuation, the unbounded loop ends, what the rewriters compute is characterised exactly (which expressions count as equal, which factor is taken out, which operands are joined, which normal form comes out), adoption into a submenu is sound and exact |
| `ota/` | OTA boot selection | over every run of calls, each possibly cut by power loss, the two flash records behave like one register that is set in an indivisible step |
| `fifo/` | the SPI-RAM FIFO | under every interleaving of writer and reader: a byte queue, no deadlock, no lost wakeup, no infinite run, nothing left over |
| `codecs/` | argv splitter, binary partition table, UART newline translation | round trips, with the exact conditions under which they hold |

## How the models are built

**Ring buffer.** A class with the fields of the C structure (pointers are offsets from `pucHead`); each method is one
critical section, or a static function called inside one. Item storage is an array of cells: a payload byte, the first
byte of a header, or another byte of a header, so reading a header where none stands would not verify. The sizes of the
storage, of a header and of the alignment are parameters, the header size being a multiple of the alignment. A ghost
`Layout` lists the blocks that tile the region from the free pointer to the write pointer. Laps count how often a
pointer has come round; they exist only in the proof. Assertions in the C functions are `assert` statements or
preconditions that every caller is proved to meet. `Geo.Align` counts in steps; `AlignFormula` equates it with the usual
rounding formula.

**The return discipline.** `prvReturnItemDefault` takes "free, read and write pointer coincide and the full flag is set"
for "the whole buffer has been returned". That is wrong when everything in a full ring has been retrieved and two parts
or more are unreturned (`Misread`). `ReturnItem` states both sides: the ring stays valid if and only if it was not in
that state, and in that state it ends up not full, with its pointers equal, while something is still outstanding. A
one-part retrieval leads there exactly when it takes the last waiting part of a full ring while the application holds
another part. A two-part retrieval leads there exactly when it takes the last waiting item of a full ring and either the
application holds something or that item is split: the two parts of one item are enough. So an application that only
ever takes one item at a time and returns both parts is not safe either: every item of the largest size, sent into an
empty allow-split ring whose pointers stand in the middle, fills the ring, and after the return of its first part the
ring takes itself for empty while the second part is still held (`SplitItemLost`). `RingRun.Run` leaves out the
retrievals that create the state and, by `DisciplineExact`, no others. `RingExamples` reaches the state on new rings in
both ways.

**Size queries.** `xFreeSize` is signed and compared with an unsigned `xMaxItemSize`, so a negative intermediate result
counts as a huge one and the branch meant for it is never reached. The model follows the code; `NoSplitQueryExact` and
`AllowSplitQueryExact` give the exact states in which the answer is right. The allow-split query also answers too little
where the free space wraps but only its tail is usable. `NoSplitQueryTooLarge` and `AllowSplitQueryTooSmall` reach such
states on new rings.

**Creation.** `MaxItemHasRoom` and `MaxItemIsLargest` say that xMaxItemSize is the largest size that always has room on an
empty ring; with an alignment of 1 and storage of odd size it is one less than it could be (`MaxItemCouldBeLarger`).
`xMaxItemSize` is the result of an unsigned subtraction. `CreationSound` says for which sizes it does not
wrap, which is exactly when every size up to it fits into the storage at all; for exactly those the new ring is valid.

**Kconfig.** A valuation gives the symbols their values; `Good` is what symbol.c guarantees about it: boolean symbols are
never mod, strings of boolean and tristate symbols are y, m or n, and those letters are not numbers. Constants are
identified by their text. `expr_eliminate_dups1` is called with both pointers on one tree and recognises a place it meets
twice by address; the model numbers the operand slots of a chain (`Spine`) and compares numbers. `KconfigSame.Norm` is the
yardstick for equality: the operands of a chain form a multiset, at every depth. `KconfigTransform.Nnf` is the yardstick
for expr_transform: one plain recursion that never looks at what it has built. The comment at
tools/kconfig/expr.c:499 says that a!=m && a!=n becomes a=m, but the code builds a=y; the model follows the code, and a=y
is what the proof needs.

**OTA.** A call can be cut before the erase, after it, or in the middle of an erase or write that leaves a record with a
wrong checksum. `BootExact` says what is booted in terms of numbers and checksums alone. Numbers are 32 bits wide; the all-ones number marks an erased record, so the last usable number is one
less. Findings: setting an application whose next number is all ones does not take effect (`SetThenGet`, exact;
`SetThenGetCanFail`, an instance). When the next number does not fit into 32 bits at all, the products in the counting
loop wrap: the loop ends exactly under the condition of `SearchEndsExact`, otherwise it runs for ever (`SearchCanHang`),
and what it finds selects another application. Returning to the factory application erases the two sectors one after
the other, so power loss in between can boot an application that was neither selected nor requested
(`FactoryResetInterrupted`, exact; `FactoryResetCanMisboot`, an instance).

**FIFO.** A transition system: each mutex section, semaphore operation and chunk computation is a step, and the scheduler
picks any enabled thread. Calls and their lengths are arbitrary.

**Codecs.** The splitter works in place on a character array, fills an array of pointers (offsets into the line, or NULL)
and is proved against a function on texts. The partition
table reader is proved against a recursive parser, and for arbitrary bytes against a description by row numbers
(`ReaderExact`), with an arbitrary 16-byte digest, or none. The UART receiver sees a
script of answers, some of them "no character yet".

## Model

| member | source | states |
|---|---|---|
| RingLayout.AlignFormula | components/esp_ringbuf/ringbuf.c:24 | the least multiple of the alignment not below x is the usual quotient formula, for any alignment |
| RingLayout.AlignMask | components/esp_ringbuf/ringbuf.c:24 | for an alignment of 2^k it is x plus the mask with the k lowest bits cleared, as the macro has it |
| RingRoom.MaxItemHasRoom | components/esp_ringbuf/ringbuf.c:687-701 | on an empty ring, wherever the pointers stand, an item of any size up to xMaxItemSize has room, in both item modes |
| RingRoom.MaxItemIsLargest | components/esp_ringbuf/ringbuf.c:687-701 | no larger size has room on every empty ring, except in a no-split ring of odd size |
| RingRoom.MaxItemCouldBeLarger | components/esp_ringbuf/ringbuf.c:687-692 | in that case one byte more has room on every empty ring as well |
| RingRoom.SplitSizes | components/esp_ringbuf/ringbuf.c:252-266 | when an item does not fit before the end, the part in front is shorter than the item, fills the tail exactly, and the aligned size of the rest is the aligned size of the item less that part |
| RingRoom.RoomAtHead | components/esp_ringbuf/ringbuf.c:214-229 | a wrapped item that passed the fit check ends at the head without passing the free pointer, and what precedes it ends exactly at the end of the storage |
| RingRoom.RoomByPointers | components/esp_ringbuf/ringbuf.c:171-185 | the pointer comparisons of the fit check say exactly that the required bytes belong to no block |
| RingLemmas.BlocksDisjoint | components/esp_ringbuf/ringbuf.c:205-292 | no two blocks of a layout share a byte |
| RingLemmas.FreeMeetsRead | components/esp_ringbuf/ringbuf.c:435 | the free pointer meets the read pointer if and only if nothing is retrieved and unreclaimed, or everything in a full ring has been retrieved |
| RingLemmas.SendJoin | components/esp_ringbuf/ringbuf.c:242-292 | the blocks of one send (item, dummy and item, two parts) add exactly one item to the sequence of items, and one or two to the number of parts |
| RingLemmas.TakeParts | components/esp_ringbuf/ringbuf.c:336-372 | what a retrieval hands out is the oldest waiting part; the others stay as they are |
| ItemRing.ItemRing.constructor | components/esp_ringbuf/ringbuf.c:655-702 | a new ring of the aligned size is empty, has the 32-bit xMaxItemSize, and is valid if and only if that did not wrap |
| ItemRing.CreationSound | components/esp_ringbuf/ringbuf.c:687-701 | the 32-bit xMaxItemSize is a size that fits into the storage, with all smaller ones, if and only if the subtraction does not wrap |
| ItemRing.ItemRing.CheckItemFits | components/esp_ringbuf/ringbuf.c:160-186 | the fit check is true if and only if there is room for the item in bytes that belong to no block |
| ItemRing.ItemRing.PutBlock | components/esp_ringbuf/ringbuf.c:222-234 | writes one block at the write pointer, leaves every other block's bytes alone and moves the pointer behind it or round to the head |
| ItemRing.ItemRing.CopyItemNoSplit | components/esp_ringbuf/ringbuf.c:205-240 | appends exactly one item to what was sent, keeps the ring valid, changes nothing retrieved or held |
| ItemRing.ItemRing.CopyItemAllowSplit | components/esp_ringbuf/ringbuf.c:242-292 | the same for the three cases whole, dummy in front, two parts |
| ItemRing.ItemRing.Send | components/esp_ringbuf/ringbuf.c:744-780 | accepts an item if and only if it is at most xMaxItemSize and has room; then exactly its blocks (whole, behind a dummy, or two parts) are laid down behind the others, otherwise nothing changes; held items stay held |
| ItemRing.ItemRing.CheckItemAvail | components/esp_ringbuf/ringbuf.c:324-334 | true if and only if a part is waiting |
| ItemRing.ItemRing.FindItem | components/esp_ringbuf/ringbuf.c:336-370 | finds the header of the oldest waiting part, past a dummy if there is one, and no assertion fires; the bytes at the address are the part's |
| ItemRing.ItemRing.GetItem | components/esp_ringbuf/ringbuf.c:336-372 | hands out address, size and split flag of the oldest waiting part, whose bytes stand there; exactly that part becomes held |
| ItemRing.ItemRing.Receive | components/esp_ringbuf/ringbuf.c:569-596 | hands out a part if and only if one waits, otherwise changes nothing |
| ItemRing.ItemRing.ReceiveSplit | components/esp_ringbuf/ringbuf.c:569-596 | takes exactly the next block, or the next two if it is split, and nothing else changes; at an item boundary that is the next item: one part, or two non-empty parts whose concatenation it is, the second at the lower address and never split again; all of them become held |
| ItemRing.ItemRing.AdvanceFree | components/esp_ringbuf/ringbuf.c:436-450 | one turn of the reclaiming loop removes exactly the first block, marks it free if it is a dummy and writes nothing else, and keeps pointers, memory and the other blocks consistent |
| ItemRing.ItemRing.ReclaimFree | components/esp_ringbuf/ringbuf.c:433-451 | the loop ends, keeps what waits and what is held, and stops at the read pointer or at an unreturned item |
| ItemRing.ItemRing.SettleFull | components/esp_ringbuf/ringbuf.c:453-461 | after the flag test the ring is valid if and only if it was not entirely retrieved, full and still partly outstanding |
| ItemRing.ItemRing.ReturnItem | components/esp_ringbuf/ringbuf.c:412-462 | returning in any order ends exactly that item's loan, leaves what waits alone and keeps the ring valid, if and only if the ring is not in the misread state; in that state it becomes "empty" with something outstanding |
| ItemRing.FlagRule | components/esp_ringbuf/ringbuf.c:453-461 | what equality of the three pointers means for the full flag after the free pointer has moved |
| ItemRing.SecondPart | components/esp_ringbuf/ringbuf.c:582-588 | behind a first part waits a second one that is not a dummy, not split, not empty and lies below it |
| ItemRing.JoinTwo | components/esp_ringbuf/ringbuf.c:581-589 | two retrieved parts reassemble to one item: the concatenation |
| RingFacts.WhenRetrievalBreaksDiscipline | components/esp_ringbuf/ringbuf.c:457-460 | a retrieval creates the misread state if and only if the ring is full, the part is the last one waiting and another part is unreturned |
| RingFacts.DisciplineSeenFromOutside | components/esp_ringbuf/ringbuf.c:457-460 | that condition in terms an application can see: one part waits, and it holds something |
| RingFacts.WhenItemRetrievalBreaksDiscipline | components/esp_ringbuf/ringbuf.c:581-589 | a two-part retrieval creates the misread state if and only if the ring is full, it takes the last item waiting, and the item is split or another part is unreturned |
| RingFacts.ItemRetrievalSeenFromOutside | components/esp_ringbuf/ringbuf.c:581-591 | it takes the last item exactly when as many parts wait as the item has |
| RingFacts.NoSplitJoin | components/esp_ringbuf/ringbuf.c:205-240 | in a no-split ring the items are the parts, one for one |
| RingFacts.RetrievedIsPrefix | components/esp_ringbuf/ringbuf.c:336-372 | at an item boundary the retrieved parts reassemble to a prefix of the items sent, and the waiting ones to the rest |
| RingFacts.NoSplitQueryExact | components/esp_ringbuf/ringbuf.c:477-505 | "an item of n bytes would be accepted if and only if n is at most the answer" holds for all n from 1 on exactly when the ring is full, or has a free run of at least one header, or xMaxItemSize is 0 |
| RingFacts.AllowSplitQueryExact | components/esp_ringbuf/ringbuf.c:507-534 | the same for allow-split rings, with the exact condition on the pointers |
| RingFacts.AnswersAreLimited | components/esp_ringbuf/ringbuf.c:497-503 | in every state both answers are at most xMaxItemSize; the no-split one, where it is not exact, is xMaxItemSize |
| RingRun.DisciplineExact | components/esp_ringbuf/ringbuf.c:453-461 | the receives a run leaves out, one-part or two-part, are exactly those that create the misread state |
| RingRun.TakeItemLoans | components/esp_ringbuf/ringbuf.c:569-596 | a disciplined two-part receive puts one or two parts on loan, which at an item boundary are the next item sent, and does not create the misread state |
| RingRun.Step | components/esp_ringbuf/ringbuf.c:160-462 | one send, disciplined one-part or two-part receive, or return: exactly when it succeeds, what it adds to the history and to the loans; validity and the absence of the misread state are kept, and the bytes read back before a return are the part's |
| RingRun.Run | components/esp_ringbuf/ringbuf.c:160-462 | for every sequence of operations: items sent are the accepted ones, retrieved items are a prefix of them at an item boundary, where a no-split ring always stands and an allow-split ring whenever only two-part receives are used; every reading is faithful, loans and unreturned parts correspond; and once nothing waits and everything is returned, every size up to xMaxItemSize fits again |
| RingRun.HeldBytes | components/esp_ringbuf/ringbuf.c:205-292 | the bytes of an unreturned part stand unchanged in memory |
| RingExamples.MisreadByTwoItems | components/esp_ringbuf/ringbuf.c:457-460 | a new ring reaches the misread state: two items fill it and both are retrieved |
| RingExamples.SplitItemLost | components/esp_ringbuf/ringbuf.c:242-292 | on any empty allow-split ring whose pointers stand in the middle, any item of the largest size: after its two-part retrieval and the return of its first part the fit check accepts every size, with the second part still held |
| RingExamples.SplitItemLostOnNewRing | components/esp_ringbuf/ringbuf.c:412-462 | a new ring reaches that |
| RingExamples.NoSplitQueryTooLarge | components/esp_ringbuf/ringbuf.c:496-503 | a reachable ring for which the query answers the largest size although no positive size has room |
| RingExamples.AllowSplitQueryTooSmall | components/esp_ringbuf/ringbuf.c:520-525 | a reachable ring for which the query answers 2 although 3 bytes have room |
| Circular.AroundAppend | components/esp_ringbuf/ringbuf.c:300-317 | one or two copies round the end of the storage append the bytes to the circular sequence |
| ByteRing.ByteRing.CheckItemFits | components/esp_ringbuf/ringbuf.c:188-203 | a chunk fits if and only if it does not exceed the unoccupied space |
| ByteRing.ByteRing.CopyItem | components/esp_ringbuf/ringbuf.c:294-322 | appends the bytes to the stream, round the end if need be, and sets the full flag exactly when the ring is full |
| ByteRing.ByteRing.Send | components/esp_ringbuf/ringbuf.c:744-780 | accepts a chunk if and only if it fits, the empty one always; otherwise the contents do not change |
| ByteRing.ByteRing.CheckItemAvail | components/esp_ringbuf/ringbuf.c:324-334 | true if and only if nothing is outstanding and the ring is not empty |
| ByteRing.ByteRing.GetItem | components/esp_ringbuf/ringbuf.c:374-410 | hands out the oldest bytes: as many as are contiguous, limited by the maximum if one is given |
| ByteRing.ByteRing.ReturnItem | components/esp_ringbuf/ringbuf.c:464-475 | gives exactly the outstanding bytes' space back; the stream is unaffected; the ring stays valid if and only if it is not full with nothing outstanding |
| ByteRing.ByteRing.CurMaxSize | components/esp_ringbuf/ringbuf.c:536-553 | equals the unoccupied space |
| ByteRing.ByteRing.StreamOrder | components/esp_ringbuf/ringbuf.c:374-475 | received is a prefix of sent; waiting plus outstanding bytes equal the occupied space, also by the pointers and the full flag |
| ByteRing.ReturnWithoutRetrieval | components/esp_ringbuf/ringbuf.c:464-475 | a new full ring on which a return with nothing outstanding makes the ring take itself for empty |
| ByteRing.Step | components/esp_ringbuf/ringbuf.c:294-475 | one send, receive or return: exactly when it succeeds and what it does to the stream |
| ByteRing.Run | components/esp_ringbuf/ringbuf.c:294-475 | for every sequence of operations the bytes received are a prefix of the bytes accepted, and the difference fits into the ring |
| KconfigExpr.CompareLetters | tools/kconfig/expr.c:955-980 | comparing a boolean or tristate symbol for equality compares strings |
| KconfigExpr.CompareMeaning | tools/kconfig/expr.c:955-976 | strings compare as strings, signed numbers as numbers, otherwise by the unsigned 64-bit patterns; turning the sides round turns the result round |
| KconfigExpr.StrCmpOrder | tools/kconfig/expr.c:965-966 | strcmp orders by the first difference, a proper prefix first |
| KconfigEliminate.EliminateYnKeepsValue | tools/kconfig/expr.c:246-327 | constant elimination keeps the value in every valuation |
| KconfigEliminate.EliminateYnShrinks | tools/kconfig/expr.c:246-327 | no y or n operand is left; the tree gets strictly smaller if and only if there was one, and is unchanged otherwise |
| KconfigEliminate.CancelEq | tools/kconfig/expr.c:141-173 | cancelling terminates on the mutated trees, never enlarges either, and keeps chains of the operator |
| KconfigEliminate.CancelEqContext | tools/kconfig/expr.c:141-173 | the operands cancelled form one context of that operator, common to both trees in every valuation |
| KconfigEliminate.EliminateEqContext | tools/kconfig/expr.c:175-195 | there is one monotone context f such that e1 = f(e1') and e2 = f(e2') in every valuation |
| KconfigEliminate.PlugMonotone | tools/kconfig/expr.c:175-195 | contexts are monotone |
| KconfigEliminate.ExprEqSound | tools/kconfig/expr.c:200-244 | expressions recognised as equal have equal values |
| KconfigEliminate.ExprEqReflexive | tools/kconfig/expr.c:200-244 | every expression is recognised as equal to itself, although its chains are cancelled against each other while being walked |
| KconfigSame.ExprEqExact | tools/kconfig/expr.c:200-244 | without constant operands, two expressions are recognised as equal if and only if they agree up to regrouping and reordering the operands of and/or, at every depth |
| KconfigSame.PlainChainsEqual | tools/kconfig/expr.c:218-229 | two chains of symbols and comparisons are equal if and only if the multisets of their operands are |
| KconfigSame.CancelExact | tools/kconfig/expr.c:141-173 | cancelling leaves of each chain exactly the multiset difference of the operands, although the trees change while being walked |
| KconfigSame.EliminateEqExact | tools/kconfig/expr.c:175-195 | the whole common factor is taken out: of each expression exactly the operands that the other has not are left, and if none is, the neutral constant; for every combination of operators |
| KconfigSame.NothingInCommon | tools/kconfig/expr.c:175-195 | no operand of one result is taken for equal to an operand of the other, unless both are the neutral constant |
| KconfigSame.ConstantsBlur | tools/kconfig/expr.c:193-194 | an input with constant operands that expr_eq takes for equal although grouped differently |
| KconfigJoin.JoinKeepsValue | tools/kconfig/expr.c:361-517 | whatever expr_join_or or expr_join_and returns has the value of the two operands joined |
| KconfigJoin.JoinExact | tools/kconfig/expr.c:361-517 | exactly which pairs of operands are joined, in either order, and into what: equal ones, and the listed pairs about one boolean or tristate symbol |
| KconfigJoin.JoinOrKeepsValue | tools/kconfig/expr.c:368-422 | each rule of expr_join_or past the equality test keeps the value |
| KconfigJoin.JoinAndKeepsValue | tools/kconfig/expr.c:432-516 | each rule of expr_join_and past the equality test keeps the value |
| KconfigJoin.JoinSize | tools/kconfig/expr.c:361-517 | a join replaces two operands by a constant and something no larger in all, and creates no chain |
| KconfigDups.PassAll | tools/kconfig/expr.c:519-569 | the aliased pass terminates, never enlarges the tree and keeps its top operator |
| KconfigDups.Pass1 | tools/kconfig/expr.c:525-536 | walking two pointers over the same slots terminates; no slot becomes a node of the chain and the slots do not grow in all |
| KconfigDups.PassAllKeepsValue | tools/kconfig/expr.c:519-569 | a pass keeps the value in every valuation, although slots change while both pointers are in the tree |
| KconfigDups.PassAllTouches | tools/kconfig/expr.c:545-563 | a pass that counts a join leaves a constant to eliminate behind; one that counts none leaves the tree as it was |
| KconfigDups.QuietPassIsSettled | tools/kconfig/expr.c:519-569 | a pass that joins nothing has tried every ordered pair of operands, at the top and in every nested chain |
| KconfigDups.SettledHasNoDuplicates | tools/kconfig/expr.c:519-569 | in a settled chain all operands are different |
| KconfigDups.EliminateDupsLoop | tools/kconfig/expr.c:571-592 | the loop without a bound ends, keeps the value in every valuation, does not enlarge the expression, and no two operands of any chain can be joined any more |
| KconfigDups.EliminateDupsKeepsValue | tools/kconfig/expr.c:571-592 | the whole elimination keeps the value in every valuation |
| KconfigDups.EliminateDupsSettles | tools/kconfig/expr.c:571-592 | its result is settled, no larger than the argument, and a fixed point |
| KconfigReduced.EliminateDupsReduces | tools/kconfig/expr.c:571-592 | in every chain of the result, nested ones too, any two operands differ up to regrouping and reordering and are none of the pairs that can be joined |
| KconfigReduced.NoTwoEqualities | tools/kconfig/expr.c:389-408 | no or-chain of the result compares one tristate symbol with two of y, m and n |
| KconfigReduced.SymbolsStayLast | tools/kconfig/expr.c:519-592 | of a chain of symbols every symbol stays once, where it stood last, in the same order |
| KconfigReduced.EliminateDupsClean | tools/kconfig/expr.c:571-592 | an expression without constant operands stays so, up to becoming a constant itself |
| KconfigTransform.PushedIsLighter | tools/kconfig/expr.c:694-711 | the form with the negation pushed through and/or is lighter than the negated node it replaces |
| KconfigTransform.Transform | tools/kconfig/expr.c:594-749 | the recursion on rebuilt nodes ends; weight, in which a negation counts double, never grows |
| KconfigTransform.TransformKeepsValue | tools/kconfig/expr.c:594-749 | the value is the same in every valuation |
| KconfigTransform.TransformNormalises | tools/kconfig/expr.c:594-749 | negation is left only on symbols other than y, m and n, and no boolean symbol is compared with y, m or n |
| KconfigTransform.TransformFixedPoints | tools/kconfig/expr.c:594-749 | the expressions left alone are exactly the normal ones; idempotent |
| KconfigTransform.TransformExact | tools/kconfig/expr.c:594-749 | the result is the negation normal form computed by one plain recursion, operands in their order |
| KconfigMenu.ContainsSound | tools/kconfig/expr.c:751-777 | a symbol an expression does not contain cannot change its value |
| KconfigMenu.ContainsExact | tools/kconfig/expr.c:751-777 | true if and only if the symbol is in the set of the expression's symbols |
| KconfigMenu.DependsExact | tools/kconfig/expr.c:779-806 | true if and only if an operand of the and-chain is the symbol, or says it is y, m, or not n |
| KconfigMenu.DependsSound | tools/kconfig/expr.c:779-806 | if the expression depends on the symbol, it can only be non-no when the symbol is |
| KconfigMenu.TransCompareExact | tools/kconfig/expr.c:808-871 | where nothing is mod, the expression built for e = y, e != y, e = n or e != n is yes if that holds and no otherwise |
| KconfigMenu.PlainCompareExact | tools/kconfig/expr.c:863-864 | for a symbol alone it is exact whatever its value, also for m |
| KconfigMenu.NegationTestExact | tools/kconfig/expr.c:839-840 | with mod it fails: the test of !s against n is right if and only if s is not mod |
| KconfigMenu.NotNoExact | tools/kconfig/menu.c:342-353 | the simplified test is yes if and only if the expression is not no, an absent expression counting as yes |
| KconfigMenu.AdoptionSound | tools/kconfig/menu.c:346-363 | for bool and tristate symbols and where nothing is mod, an adopted entry whose condition is not no implies a parent symbol that is not no (dependency path) or a parent visibility that is not no (elimination path) |
| KconfigMenu.NothingLeftExact | tools/kconfig/menu.c:352-357 | the elimination path succeeds if and only if the visibility is y, or the dependency is an and-chain among whose operands are all those of the visibility |
| KconfigMenu.AdoptsExact | tools/kconfig/menu.c:342-362 | for conditions without constants, an entry is adopted if and only if its condition mentions the parent's symbol and either depends on it or covers the parent's visibility |
| KconfigMenu.Finalize | tools/kconfig/menu.c:341-371 | the submenus plus the remaining siblings are the original list in order, every entry is adopted by the one it stands under, and the loop stops only at an entry that is not adopted |
| OtaSelect.TargetIsLeast | components/app_update/esp_ota_ops.c:385-388 | the next number is the least one, from the current number on, congruent to slot + 1, and less than the current number plus the application count |
| OtaSelect.AppOfIff | components/app_update/esp_ota_ops.c:542-543 | a positive number names slot y if and only if it is congruent to y + 1 |
| OtaSelect.BootExact | components/app_update/esp_ota_ops.c:294-297 | an application is booted if and only if the intact record with the largest number names it, where intact means not all ones and the right checksum; the default if no record is intact |
| OtaSelect.Search | components/app_update/esp_ota_ops.c:385-388 | whenever the counting loop ends, it ends at the first 32-bit value that is large enough, which is that least number if it fits into 32 bits |
| OtaSelect.SearchEndsExact | components/app_update/esp_ota_ops.c:385-388 | the loop ends if and only if the current number is at most the largest 32-bit number congruent to slot + 1 modulo the largest power of two in the application count |
| OtaSelect.SearchCanHang | components/app_update/esp_ota_ops.c:385-388 | a number, a slot and a count for which it never ends |
| OtaSelect.WrapCanEnd | components/app_update/esp_ota_ops.c:385-388 | a flash content, a slot and a count for which the next number exceeds 32 bits and the loop ends nevertheless |
| OtaSelect.OtaData.RewriteOtaSeq | components/app_update/esp_ota_ops.c:299-315 | afterwards the sector, erased before it is written, holds the record with its checksum; the other sector is untouched |
| OtaSelect.OtaData.EraseAll | components/app_update/esp_ota_ops.c:442-445 | both sectors are erased |
| OtaSelect.OtaData.RewriteOtaData | components/app_update/esp_ota_ops.c:327-416 | refuses a slot that does not exist without touching flash; otherwise, whenever the counting loop ends, writes into the sector selection does not go by the next number for the slot, or, if that exceeds 32 bits, a number that does not select the slot |
| OtaSelect.OverwriteCurrent | components/app_update/esp_ota_ops.c:384-411 | anything invalid in the rewritten sector leaves the selection alone, and a valid record at least as late takes over |
| OtaSelect.WrongChecksumIgnored | components/app_update/esp_ota_ops.c:294-297 | a record with a wrong checksum in the rewritten sector does not change what is booted |
| OtaSelect.CrashSafe | components/app_update/esp_ota_ops.c:294-411 | as long as the next number fits into 32 bits and, for a call that completes, is not the all-ones one: wherever power fails, the next boot selects what was selected before; a completed call selects what it asked for; the maximum number never decreases and grows by at most the application count |
| OtaSelect.SetThenGet | components/app_update/esp_ota_ops.c:327-562 | after setting slot y boot selects y if and only if the next number is not the all-ones number |
| OtaSelect.SetThenGetCanFail | components/app_update/esp_ota_ops.c:327-562 | a flash content in which setting the first of two applications boots the second |
| OtaSelect.NoNumberLeft | components/app_update/esp_ota_ops.c:386-388 | when the next number for y exceeds 32 bits, no 32-bit number from the current one on selects y |
| OtaSelect.RunRefinesRegister | components/app_update/esp_ota_ops.c:294-562 | over every run of calls, each complete or cut, that finds a usable number at every call, the selection is the last completed one |
| OtaSelect.EnoughAtStart | components/app_update/esp_ota_ops.c:384-411 | that is so for every run whose completed calls, plus one, times the application count fit above the current number; cut calls use up nothing |
| OtaSelect.FactoryResetInterrupted | components/app_update/esp_ota_ops.c:442-445 | a reset cut between the two sectors boots the old selection or the default if and only if the second record is invalid or names the same application |
| OtaSelect.FactoryResetCanMisboot | components/app_update/esp_ota_ops.c:442-445 | a flash content where half a reset boots another application |
| SpiRamFifo.StepInv | components/spi_ram/spi_ram_fifo.c:48-142 | every step of either thread keeps the queue invariant and the token invariant |
| SpiRamFifo.NotBothShort | components/spi_ram/spi_ram_fifo.c:62-64 | because chunks are clipped at the physical end, too little room and too little data are never true together, for any size from 1 on |
| SpiRamFifo.NoDeadlock | components/spi_ram/spi_ram_fifo.c:68-75 | the two threads never block each other; no wakeup is lost |
| SpiRamFifo.ChunkExact | components/spi_ram/spi_ram_fifo.c:56-64 | a chunk is at least 1 and at most 64 bytes, within the call and before the physical end, and as large as that allows |
| SpiRamFifo.BlockedForAReason | components/spi_ram/spi_ram_fifo.c:68-75 | a blocked writer lacks room for 64 bytes and for what it has left, or is about to be woken; likewise a blocked reader |
| SpiRamFifo.StepDecreases | components/spi_ram/spi_ram_fifo.c:55-139 | every step decreases a measure, however the threads are scheduled |
| SpiRamFifo.StepConserves | components/spi_ram/spi_ram_fifo.c:48-142 | no byte of the input is lost, duplicated or reordered, and every byte asked for is accounted for |
| SpiRamFifo.EveryMoment | components/spi_ram/spi_ram_fifo.c:48-142 | at every moment of every run: read is a prefix of written, fill_len is the circular distance of the positions, no mutual blocking, and the number of steps is bounded |
| SpiRamFifo.EndsWithOneFinished | components/spi_ram/spi_ram_fifo.c:48-142 | whatever the totals, a run can only stop with one thread finished and the other finished or waiting for a chunk that is not there |
| SpiRamFifo.EndsComplete | components/spi_ram/spi_ram_fifo.c:48-142 | if no more bytes are asked for than are written, a run can only stop with the reader through and exactly the first bytes of the input received; if no fewer, with the writer through and the whole input sent |
| SplitArgv.SplitInPlace | components/console/split_argv.c:34-120 | argv holds, closed by NULL, at most argv_size - 1 entries, each a NUL-terminated string inside the original string's bytes and equal to the argument the specification finds; bytes behind the string and later entries are untouched |
| SplitArgv.ReadNext | components/console/split_argv.c:43-47 | the character read is still the original one, because writing never passes reading |
| SplitArgv.ReadEscaped | components/console/split_argv.c:84-92 | reading the escaped form of a text, quoted or bare, adds exactly that text to the argument |
| SplitArgv.PlainCharacter | components/console/split_argv.c:67-101 | characters that stand for themselves: a quote in a bare argument and a space in a quoted one too |
| SplitArgv.UnknownEscape | components/console/split_argv.c:84-92 | a backslash before anything but a backslash, quote or space swallows that character |
| SplitArgv.ArgumentClosed | components/console/split_argv.c:75-96 | a closing quote ends an argument whatever follows, a space a bare one |
| SplitArgv.EndOfLine | components/console/split_argv.c:110-115 | an argument begun counts at the end of the line, also with its quote open or behind a backslash |
| SplitArgv.SpacesSkipped | components/console/split_argv.c:58-60 | spaces between arguments count for nothing |
| SplitArgv.FewerPlaces | components/console/split_argv.c:43 | with fewer places in argv the first arguments are the same and the others are left out |
| SplitArgv.RoundTrip | components/console/split_argv.c:34-120 | joining any arguments that fit, each quoted or (if not empty) bare, both escaped, and splitting the line gives them back |
| SplitArgv.SplitTyped | components/console/split_argv.c:34-120 | the same in the buffer: a line holding the joined forms of NUL-free arguments is split in place into exactly those arguments |
| PartitionTable.WordRoundTrip | components/partition_table/gen_esp32part.py:334 | a 32-bit field is read back as written |
| PartitionTable.NameRoundTrip | components/partition_table/gen_esp32part.py:343-344 | a name comes back if and only if it is at most 16 bytes long and contains no NUL |
| PartitionTable.RowRoundTrip | components/partition_table/gen_esp32part.py:336-366 | a row can be written if and only if its fields are in range, and is then read back unchanged if and only if its name fits |
| PartitionTable.RowLayout | components/partition_table/gen_esp32part.py:334-366 | every byte of a written row: magic, types, little-endian offset and size, padded or cut name, flag |
| PartitionTable.RowMeaning | components/partition_table/gen_esp32part.py:337-354 | which rows are read, with which error otherwise, and which bytes each field comes from; unknown flags are ignored |
| PartitionTable.ReadRowRoundTrip | components/partition_table/gen_esp32part.py:336-366 | writing a row that was read gives the same bytes if and only if nothing stands behind the name's end and no unknown flag is set |
| PartitionTable.FromBinary | components/partition_table/gen_esp32part.py:165-183 | the loop computes the recursive parser; it reads good rows as long as there are any and answers by what follows them |
| PartitionTable.ReaderExact | components/partition_table/gen_esp32part.py:165-183 | for arbitrary bytes: rows are good that are a partition row or a checksum row with the digest of the partition rows before it; reading succeeds if and only if an end row follows the good ones, and otherwise the error is a missing end, a short row, a wrong checksum or wrong magic bytes |
| PartitionTable.ChecksumDecides | components/partition_table/gen_esp32part.py:175-179 | a written table with any 16 bytes as checksum is accepted if and only if they are the digest of its rows |
| PartitionTable.ParseRows | components/partition_table/gen_esp32part.py:169-182 | reading the rows of a table finds its partitions, each with its name as the field holds it, and digests exactly those rows |
| PartitionTable.ToBinaryOk | components/partition_table/gen_esp32part.py:185-192 | a table can be written if and only if every field is in range and a row is left for the end marker; which error comes otherwise |
| PartitionTable.TableLayout | components/partition_table/gen_esp32part.py:185-192 | the written table is 3072 bytes: the rows, the checksum row if any, and 0xFF |
| PartitionTable.TableRoundTrip | components/partition_table/gen_esp32part.py:165-192 | every table that can be written is read back, with any 16-byte digest or without the checksum row; the result is the table if and only if all its names fit |
| UartCodec.Write | components/vfs/vfs_uart.c:173-194 | the characters sent are the encoding of the data in the line-ending mode |
| UartCodec.EncodeLines | components/vfs/vfs_uart.c:184-190 | a line goes out unchanged, followed by CR LF, CR or LF according to the mode |
| UartCodec.DecodeLines | components/vfs/vfs_uart.c:226-246 | with CR LF, text without CR comes in unchanged, CR LF as a newline, a CR before another character as itself, and a CR at the end is held |
| UartCodec.DecodeEach | components/vfs/vfs_uart.c:226-228 | with CR every CR comes in as a newline and nothing else changes; with LF nothing does |
| UartCodec.Receiver.ReadChar | components/vfs/vfs_uart.c:200-209 | delivers the pushed-back character first and leaves the slot empty |
| UartCodec.Receiver.ReturnChar | components/vfs/vfs_uart.c:212-216 | puts the character in front of everything pending; its assertion is a precondition met at every call |
| UartCodec.Receiver.Next | components/vfs/vfs_uart.c:225-250 | one turn of the loop: the next decoded character, or none because the receive function had none, and then nothing but an undecided CR is left pushed back |
| UartCodec.Receiver.Read | components/vfs/vfs_uart.c:218-262 | delivers decoded characters up to the size or a newline, stops early only at a "no character yet" with nothing but an undecided CR left pushed back, and what is delivered plus what is pending decodes to the input |
| UartCodec.ReadAll | components/vfs/vfs_uart.c:218-262 | for every division into reads and every pattern of arrivals, what is read plus what is pending decodes to the input; once there have been as many non-empty reads as answers and characters to come, everything has been delivered and at most an undecided CR is held |
| UartCodec.RoundTripCRLF | components/vfs/vfs_uart.c:184-241 | with CR LF every text comes back, up to one CR at its very end, which is held |
| UartCodec.RoundTripCR | components/vfs/vfs_uart.c:184-228 | with CR the length comes back always, and the text if and only if it contains no CR |
| UartCodec.RoundTripLF | components/vfs/vfs_uart.c:184-191 | with LF nothing changes |
| UartCodec.RoundTrip | components/vfs/vfs_uart.c:173-262 | what comes through of a text in each mode: all of it, but for a CR at its very end with CR LF, and CRs as newlines with CR |
| UartCodec.Transmit | components/vfs/vfs_uart.c:173-262 | however the characters arrive and the reads are cut, what has been read is a prefix of what comes through of the text written, and all of it after as many non-empty reads as answers and characters |

## Left out

- Ring buffer: ticks, semaphores, queue sets, printing, deletion, the functions called from interrupts (which repeat the same steps) and the deprecated calls.
- Ring buffer: the byte encoding of headers inside the storage (cells are typed) and 32-bit overflow of sizes.
- ItemRing.ItemRing.constructor: with a wrapped xMaxItemSize the size test lets items through that exceed the storage (CreationSound), and what the ring does then is not followed. Failed allocation is not modelled.
- ItemRing.ItemRing.ReturnItem: the address must be one that was handed out and not yet returned, as the C assertions demand; what happens after the misread state is entered is not followed further.
- ItemRing.ReclaimFree: the model compares the pointers before it looks at the header; the C loop looks first, which only reads a header it then ignores.
- ByteRing.ByteRing.ReturnItem: the address check is not modelled.
- ByteRing.Run: returns with nothing outstanding are left out of runs; ReturnItem says what they do.
- Kconfig: expressions are values. In-place node reuse, freeing and the global trans_count are not modelled, except for the aliased slots of expr_eliminate_dups1; the count of a pass is its result.
- Kconfig: lists, ranges, absent operands, the S_OTHER type (the only source of k_invalid comparisons) and parsing; how symbol.c computes values is a valuation; printed warnings.
- Kconfig: expr_trans_bool changes yes to mod on purpose and keeps only no against non-no, so it is not among the value-preserving steps.
- KconfigSame.ExprEqExact: for expressions no chain of which has y or n as an operand; with such operands expr_eq recognises more (ConstantsBlur), and ExprEqSound and ExprEqReflexive hold for all.
- KconfigSame.EliminateEqExact: likewise, and neither expression is y or n itself; EliminateEqContext holds for all.
- KconfigReduced.SymbolsStayLast: the order is stated for chains of symbols; for other operands the joins decide which stays.
- KconfigMenu.AdoptsExact: for conditions in which no y, m or n stands alone and no boolean symbol is compared with m.
- KconfigMenu.Finalize: entries that already have a list adopt nothing here; the list branch, choices, promptless splicing and reverse dependencies of menu_finalize are left out, and relinking is modelled as building a tree.
- KconfigMenu.AdoptionSound: holds on valuations without mod (NegationTestExact shows why) and for conditions in which only boolean and tristate symbols, y and n stand alone; comparisons may be of any symbols.
- OtaSelect.OtaData.RewriteOtaData: demands that the counting loop ends; SearchEndsExact says exactly when that is.
- OtaSelect.CrashSafe: demands that valid records carry numbers from 1 on, as every record written by the code does, that the next number fits into 32 bits, and, for a call that completes, that it is not the all-ones one; SetThenGet shows that the last is necessary.
- OtaSelect.RunRefinesRegister: demands a usable number at every call of the run; SetThenGet and NoNumberLeft show why.
- OTA: image verification, secure boot, finding partitions, choosing among default applications (`Fallback`), flash errors, the RAM copy of the records, the ESP32 memory-mapped branches; the checksum is any function.
- FIFO: the time-out path, which gives the mutex without holding it; SPI registers (the RAM is an array), overflow counters, creation and parameter checks. One writer and one reader; more threads on one side are not modelled.
- SplitArgv.SplitInPlace: demands argv_size of at least 1, as the C code writes the final NULL into argv.
- Partition table: CSV parsing, verification of offsets and overlaps, command line, UTF-8 decoding of names (a name is its bytes), the text of warnings.
- UART: locks, errno, blocking mode, file descriptors, and which driver provides the receive and transmit functions.
- Everything else in the SDK (network stack, TLS, HTTP client, VFS select, logging, Kconfig front ends, web sockets).
