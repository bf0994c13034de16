# Verified kernels of an SVF-based static analyser

This project models six algorithmic kernels of the analyser and proves what they are for. The
kernels share no more than three helper modules: `Arithmetic` (products and quotients), `Sets` and
`Reachability` (chains along a finite relation). `dafny verify dfyconfig.toml` checks all of them.

1. **Weak topological order** (`Graphs`, `WtoTree`, `WtoComponents`, `WtoHeads`, `WtoMarks`,
   `WtoSteps`, `WtoDepth`, `WtoTails`, `Wto`). `Wto.BlockOrder` is the builder class with its stack,
   counter, cycle depth numbers and head tables; `Visit` and `Component` are the mutually recursive
   depth-first search that resets numbers and re-enters a component. For every finite graph the
   search terminates, lists exactly the reachable nodes once, and puts every edge forward or to the
   head of an enclosing cycle. The components are the strongly connected components, at the top
   level and again below every head, and the recorded heads cut every cycle of the graph. The two
   visitors compute the heads around each node and the regular exits of each cycle.
2. **Lowering of constant address expressions** (`SsaIR`, `LoweringStep`, `ConstantGEPs`,
   `SsaDominance`, `BreakConstantExpr`). A small SSA form with an interpreter that is generic in the meaning of
   opcodes, constants, arguments, effects and branches. The worklist pass keeps the value of every
   original instruction after any number of blocks, on every machine; it keeps every use dominated
   by its definition, terminates with no address computation left at any depth of an
   operand, changes nothing but the operands that had one, and reports exactly whether there was any.
3. **Interval domain** (`NumericLiteral`, `IntervalValue`, `Widening`, `Bits`, `BestInterval`,
   `IntervalQuotients`, `IntervalArithmetic`, `ShiftCounts`, `LeftShifts`, `RightShifts`,
   `IntervalBits`). Bounds are integers with two infinities; integer division keeps a non-negative remainder, as in the SMT-LIB theory of
   integers. An interval stands for the integers between its bounds; it is well-formed if it is
   empty or has neither a lower bound of plus infinity nor an upper bound of minus infinity.
   Addition, subtraction and multiplication yield the least interval that holds all results of the
   members; for division and both shifts the exact condition is proved under which they do. Left
   shift does for counts up to 30.
4. **Type flattening and address offsets** (`TypeLayout`, `TypeCollector`, `FieldLayout`, `GepOffset`,
   `GepRange`). Flattened element and field lists, the memo table that records them, and the sum of element
   offsets along the index list of an address computation: what it addresses, and when it is in range.
5. **Debug-type canonicalisation and hierarchy** (`DebugTypes`, `HierarchyTables`,
   `HierarchyClosing`, `HierarchySearch`, `TypeHierarchy`). The memo table of canonical types, nodes and edges on
   demand, the cached search for everything below a type, and the closing of the hierarchy under
   void.
6. **Class-hierarchy closures and the points-to text format** (`ClassClosures`,
   `VirtualFunctionIds`, `ClassHierarchy`; `Decimal`, `PtsText`, `PtsDiff`).

## Where the code does not do what one would expect

- The field index of an address computation need not be below the number of flattened elements.
  It is for every valid index list exactly when the largest index of the type is, which
  `GepRange.MaxOffset` computes from the type (`GepRange.InRangeIff`). Two things go wrong. A trailing
  empty part: field 1 of a struct of a scalar and an empty struct starts past the only element
  (`GepRange.NonEmptySourceIsNotEnough`). And an array with a dimension of 0, for which one dummy
  element is recorded though its element may have more: in a struct that ends in a flexible array of
  pairs, the second half of a pair lies past the end (`GepRange.FlexibleArrayOfStructs`). Apart from
  such arrays, which are fine when their element is no aggregate, the index is always in range exactly
  when nothing empty trails the source type (`GepRange.InRangeIffFillsEnd`), and one index list is out
  of range exactly when the addressed part is empty and nothing follows it at any level
  (`GepRange.OutOfRangeIff`). For all types it is exactly when what remains, counting a dummy element
  as one, comes to nothing (`GepRange.OffsetAndRemaining`).
- Constant array indices are compared and looked up as 32-bit unsigned numbers, so an index wider
  than that may be out of bounds and still count as an element (`GepOffset.WideIndexWraps`).
- Bit operations on two single numbers truncate them to 64 bits without notice, so 2^64 & 2^64 is 0.
  The result is sound exactly when the number they yield fits 64 bits (`IntervalBits.BitAnd`,
  `IntervalBits.OverlongTruncated`).
- `|` and `^` on two bounded, non-negative intervals compute a bound with a 32-bit shift. The result
  is then sound exactly when the larger upper bound plus one is below 2^30
  (`IntervalBits.BitOrXor`).
- Division always holds every quotient by a non-zero divisor, but is not always the least interval
  that does. Without 0 among the divisors it is exactly when the divisors are bounded or some
  dividend is not negative: otherwise quotient 0 is counted among the corners and not come down to,
  as for -5 divided by 2 and more. With 0 among the divisors the answer [0, 0] is least exactly when
  there is another divisor, and the answer "everything" exactly when the quotients are unbounded both
  ways, which they are not for 5 divided by 0 to 2 (`IntervalArithmetic.Div`,
  `IntervalQuotients.DivLeast`, `IntervalArithmetic.DivNotBest`).
- Right shift truncates the ends of its operand to 32 bits. Its result holds every shift exactly when
  no finite end sticks out of that range on its side; it is the least interval for 32-bit ends, and
  beyond them exactly when the counts are unbounded and truncation keeps the sign. That is for counts
  up to 31 (`RightShifts.KeptResult`).
- Both shifts cast finite counts to 32 bits, so a count from 2^32 on shifts by its low bits: 5 shifted
  right by 2^32 stays 5 (`RightShifts.RightShiftLoses`). For all counts that the cast leaves defined,
  the result of a right shift holds all quotients exactly when the hull of the exact ends lies within
  that of the truncated and cast ones, and is least exactly when they agree (`RightShifts.RightDone`);
  for 32-bit operands and changed counts the first is so exactly around zero, for unbounded counts, or
  when the cast counts shift the operand away as well (`RightShifts.FarCountsSound`).
- In a left shift, count 31 gives the factor -2^31. As an upper count it empties the factors, and 1
  shifted by 0 to 31 comes out empty (`LeftShifts.LeftShiftLoses`). With counts up to 31 the result
  holds every shift exactly when the upper count is not 31, or the lower one is 31 too and the operand
  is symmetric (`LeftShifts.SignBitSound`); with cast counts the exact conditions are
  `LeftShifts.LeftSound` and, for the least interval, `LeftShifts.LeftLeast`
  (`LeftShifts.ShiftLeft`).
- Narrowing reads the upper bound after it has replaced the lower one, behind an assertion that the
  interval is not empty. The assertion trips exactly when the interval is unbounded below and the
  other one lies above it (`IntervalValue.NarrowTripsIff`). Inside the iteration it never does
  (`Widening.NarrowingKeeps`); on arbitrary operands it can (`Widening.NarrowCanTrip`).
- A node printed without objects reads back as pointing to object 0, because the length of the
  object text wraps around. The program itself never prints such a node, so its output always reads
  back (`PtsText.RoundTrip`, `PtsText.EmptyEntryReadsAsZero`, `PtsDiff.Diff`).
- After an extended build not every type need lie below void. A type does exactly when it climbs to
  void, to char or to a type with nothing above it (`HierarchyClosing.ReachesVoidIff`), which all
  types do in a hierarchy without cycles. Classes are compared by their identifier alone
  (`svf-llvm/lib/DCHG.cpp:905-908`), and a compiler gives classes of internal linkage none, so all
  of these are one canonical type; one that derives from another makes an edge from their node to
  itself (`svf-llvm/lib/DCHG.cpp:103-104`). Two unnamed structs nested on one source line do the same
  by a first field (`svf-llvm/lib/DCHG.cpp:60`). If the node has no other edge up, closing leaves it
  out, and the search for what lies below it recurses for ever: below a cycle without cached answers it
  ends at no call depth (`TypeHierarchy.ClassesWithoutIdentifier`, `HierarchySearch.NeverEnds`).
- A comment on type equality (`svf-llvm/include/SVF-LLVM/DCHG.h:217-224`) speaks of shallow pointer
  equality of basic and composite types; the code compares encodings, sizes, names and places. The
  model follows the code.
- A comment on intervals (`svf/include/AbstractExecution/IntervalValue.h:52`) says that only
  `[1, 0]` is empty; the code tests the order of the bounds. The model follows the code.

## Model

| member | source | states |
|---|---|---|
| WtoTree.EdgeForwardOrToHead | svf/include/AbstractExecution/WTO.h:751-816 | the weak topological order theorem: an edge goes strictly forward in the flattened order or to the head of a cycle that contains its source |
| WtoTree.DistinctFlat | svf/include/AbstractExecution/WTO.h:751-816 | a tree without repetition flattens to a list in which no node occurs twice |
| WtoTree.FlatNodes | svf/include/AbstractExecution/WTO.h:751-816 | the flattened order lists exactly the nodes of the tree, heads included |
| WtoComponents.SameComponentIffMutuallyReachable | svf/include/AbstractExecution/WTO.h:751-816 | two nodes share a top-level component iff each reaches the other: the components are the strongly connected components |
| WtoComponents.CycleIffOnGraphCycle | svf/include/AbstractExecution/WTO.h:797-814 | a top-level component is a cycle component iff its nodes lie on cycles of the graph |
| WtoComponents.PartsOfOrder | svf/include/AbstractExecution/WTO.h:751-816 | both facts for all components of a correct tree |
| WtoHeads.CycleMeetsHead | svf/include/AbstractExecution/WTO.h:751-816 | every cycle of the graph inside a correct order passes through the head of a recorded cycle |
| WtoHeads.BodyIsCorrect | svf/include/AbstractExecution/WTO.h:751-765 | the body of every recorded cycle is a correct order of its own |
| WtoHeads.HeadsOfOrder | svf/include/AbstractExecution/WTO.h:751-816 | both for all graph cycles and all recorded heads: the heads cut every cycle, and below a head the components are the strongly connected ones of the rest |
| WtoMarks.StartScan | svf/include/AbstractExecution/WTO.h:774-778 | pushing and numbering a node of the region establishes the invariant of its out-edge scan |
| WtoSteps.ScanSeen | svf/include/AbstractExecution/WTO.h:787-795 | an edge to a visited node keeps the scan's invariant with the lower of the two numbers as low number |
| WtoSteps.ScanClosed | svf/include/AbstractExecution/WTO.h:783-795 | a nested visit that closed its component reports a number above the low number and leaves the stack alone |
| WtoSteps.ScanOpen | svf/include/AbstractExecution/WTO.h:783-795 | a nested visit that stayed open adds its nodes to the open part, and its low number is taken over when it is no higher |
| WtoSteps.FinishOpen | svf/include/AbstractExecution/WTO.h:797-815 | a node whose low number lies below itself stays on the stack, with an edge back to the older node of that number |
| WtoSteps.FinishVertex | svf/include/AbstractExecution/WTO.h:797-813 | a node that closes without a loop has no edge to itself and none of the nodes placed during its scan has an edge to it |
| WtoSteps.FinishPop | svf/include/AbstractExecution/WTO.h:799-808 | popping the open part makes it an unvisited region, strongly connected around the node |
| WtoSteps.FinishCycle | svf/include/AbstractExecution/WTO.h:797-815 | after the re-entry the whole open part is placed and the stack is as before the visit |
| WtoSteps.BuiltInFront | svf/include/AbstractExecution/WTO.h:808-812 | components found later go in front of those found earlier and the list stays a correct order |
| WtoMarks.FindsWhatItReaches | svf/include/AbstractExecution/WTO.h:768-816 | what a visit places or leaves open is exactly what its node reached through nodes unvisited when it began |
| Wto.BlockOrder.Visit | svf/include/AbstractExecution/WTO.h:768-816 | terminates; places or leaves open exactly what the node reached through unvisited nodes; the components it prepends are a correct order of the nodes newly placed, and their heads are recorded |
| Wto.BlockOrder.PopDownTo | svf/include/AbstractExecution/WTO.h:803-807 | pops exactly the part above the node and makes each of these nodes unvisited |
| Wto.BlockOrder.Component | svf/include/AbstractExecution/WTO.h:751-765 | the cycle component holds exactly the region around its head, in a correct order, and is recorded under its head |
| Wto.BlockOrder.Build | svf/include/AbstractExecution/WTO.h:603-610 | the order lists each reachable node once and no other, satisfies the order theorem, every cycle component is a loop through its head, every graph cycle passes through a recorded head, at the top level and below every head the components are the strongly connected components, the depths are the enclosing heads, the recorded heads are exactly the heads of cycles at any depth, and the tails of a head are the nodes that it encloses, that head no cycle themselves and that have a regular exit from its cycle |
| Wto.BlockOrder.BuildNodeToDepth | svf/include/AbstractExecution/WTO.h:819-826 | the depth table is the one that the tree defines |
| Wto.BlockOrder.BuildTails | svf/include/AbstractExecution/WTO.h:829-841 | every head gets its tails, among them those inside nested cycles, and no depth lookup misses |
| Wto.BlockOrder.Push | svf/include/AbstractExecution/WTO.h:731-734 | the node is on top and nothing else changed |
| Wto.BlockOrder.Pop | svf/include/AbstractExecution/WTO.h:722-728 | the top is returned and removed |
| Wto.BlockOrder.SetCDN | svf/include/AbstractExecution/WTO.h:712-719 | the node's number is set, whether it had one or not |
| Wto.AllPlaced | svf/include/AbstractExecution/WTO.h:603-610 | the visit of the entry leaves an empty stack and has placed exactly the reachable nodes |
| Wto.OrderTheorem | svf/include/AbstractExecution/WTO.h:603-610 | a correct tree lists its nodes once each, in weak topological order |
| Wto.TailsReady | svf/include/AbstractExecution/WTO.h:829-841 | the lookups of tail building never miss, and what it collects are the cycle's tails |
| WtoDepth.Compare | svf/include/AbstractExecution/WTO.h:148-181 | the four results mean equal, proper continuation, proper prefix, and neither |
| WtoDepth.CommonPrefix | svf/include/AbstractExecution/WTO.h:188-205 | the result is the longest common prefix |
| WtoDepth.DepthBuilder.Visit | svf/include/AbstractExecution/WTO.h:625-643 | records the depths of one component below the current nesting, existing entries kept, and restores the nesting |
| WtoDepth.DepthBuilder.VisitAll | svf/include/AbstractExecution/WTO.h:632-635 | records the depths of a list of components |
| WtoDepth.DepthIsEnclosingHeads | svf/include/AbstractExecution/WTO.h:613-645 | every node has a depth, and it lists exactly the heads of the cycles around it, outermost first, a head not listing itself |
| WtoTails.TailBuilder.Visit | svf/include/AbstractExecution/WTO.h:664-683 | collects, at any nesting level, the nodes that head no cycle and have an edge to a node other than the head whose depth is a prefix of the head's |
| WtoTails.TailBuilder.VisitAll | svf/include/AbstractExecution/WTO.h:835-838 | the same over the components of a cycle |
| WtoTails.PlainAreNoHeads | svf/include/AbstractExecution/WTO.h:664-683 | in a tree without repetition the nodes visited as vertices are all nodes but the recorded heads |
| WtoTails.RecordedHeads | svf/include/AbstractExecution/WTO.h:762-763 | a node has a recorded cycle iff it heads a cycle at some nesting level |
| WtoTails.RecordedCycle | svf/include/AbstractExecution/WTO.h:762-763 | the cycle recorded for a head holds exactly what the head encloses |
| WtoTails.EnclosesTrans | svf/include/AbstractExecution/WTO.h:613-645 | enclosure of nodes by heads is transitive |
| WtoTails.PrefixIffShared | svf/include/AbstractExecution/WTO.h:214-217 | one depth is a prefix of another iff every cycle around the first node is around the second |
| WtoTails.TailsAreRegularExits | svf/include/AbstractExecution/WTO.h:672-683 | a node passes the tail test iff it has an edge out of the cycle to a node none of whose cycles excludes the head |
| LoweringStep.ConstEval | svf-llvm/lib/BreakConstantExpr.cpp:117-129 | a constant expression has the same value wherever it is evaluated |
| LoweringStep.EntrySim | svf-llvm/lib/BreakConstantExpr.cpp:206-216 | a rewritten PHI entry gives the value the constant gave, as the instruction ran in the incoming block |
| LoweringStep.StepSim | svf-llvm/lib/BreakConstantExpr.cpp:183-236 | one block, run before and after a conversion, ends at the same point with the same memory and the same values |
| LoweringStep.RunSim | svf-llvm/lib/BreakConstantExpr.cpp:183-236 | whole runs before and after a conversion stay related |
| LoweringStep.ConversionKeepsMeaning | svf-llvm/lib/BreakConstantExpr.cpp:206-233 | one conversion keeps every original instruction's value on every machine and run |
| LoweringStep.ConversionKeepsWF | svf-llvm/lib/BreakConstantExpr.cpp:117-129 | one conversion keeps the shape of the function: each instruction at one place, PHIs first, terminator last, agreeing PHI entries, operands known |
| SsaDominance.ConversionKeepsDominance | svf-llvm/lib/BreakConstantExpr.cpp:117-129 | one conversion, in front of an instruction or at the end of an incoming block, leaves every use dominated by its definition, whatever the control flow |
| SsaDominance.EntryUses | svf-llvm/lib/BreakConstantExpr.cpp:206-214 | the value of a rewritten PHI entry is available at the end of the entry's block |
| BreakConstantExpr.ConversionWeight | svf-llvm/lib/BreakConstantExpr.cpp:228-233 | converting an operand moves its size to the new instruction, so the weight of the worklist with the user does not grow; taking a user off the worklist lowers it |
| ConstantGEPs.ScanFindsGEP | svf-llvm/lib/BreakConstantExpr.cpp:87-109 | the recursive scan answers yes iff an address computation is the expression or occurs in it at any depth |
| ConstantGEPs.ConvertsOneMore | svf-llvm/lib/BreakConstantExpr.cpp:206-233 | a conversion replaces only operands that are the expression, by the instruction made for it; over any number of conversions everything else stays and each made instruction stands for an expression of the first function |
| BreakConstantExpr.OperandApplies | svf-llvm/lib/BreakConstantExpr.cpp:219-233 | inserting in front of the user and replacing all its uses is a conversion |
| BreakConstantExpr.EntryApplies | svf-llvm/lib/BreakConstantExpr.cpp:206-214 | inserting before the terminator of the incoming block and rewriting the later entries of that block is a conversion, given that equal blocks carry equal values |
| BreakConstantExpr.FunctionBody.ConvertExpression | svf-llvm/lib/BreakConstantExpr.cpp:117-129 | the new instruction stands directly in front of the insertion point and keeps the expression's own operands |
| BreakConstantExpr.FunctionBody.LowerOperands | svf-llvm/lib/BreakConstantExpr.cpp:219-235 | afterwards the instruction uses no constant address computation, meaning and dominance are kept, and only listed instructions may still use one |
| BreakConstantExpr.FunctionBody.LowerPhi | svf-llvm/lib/BreakConstantExpr.cpp:194-218 | the same for the entries of a PHI |
| BreakConstantExpr.FunctionBody.CollectUsers | svf-llvm/lib/BreakConstantExpr.cpp:154-171 | the worklist holds exactly users of constant address computations, and all of them |
| BreakConstantExpr.FunctionBody.RunOnFunction | svf-llvm/lib/BreakConstantExpr.cpp:145-238 | terminates with no address computation occurring at any depth of an operand, with the same meaning and, for every control flow, with uses dominated by definitions as before; instructions keep their opcode and blocks, operands without an address computation stay, and every made instruction stands for an expression that occurred in the function and has one in it; reports a change iff an address computation occurred in an operand at entry |
| BreakConstantExpr.RunOnModule | svf-llvm/lib/BreakConstantExpr.cpp:142-240 | every function of the module is lowered, keeps its meaning and its dominance property and is otherwise unchanged; the result is true iff an address computation occurred at any depth of some operand of some function |
| NumericLiteral.MinOf | svf/include/AbstractExecution/NumericLiteral.h:405-418 | the least element, plus infinity for none |
| NumericLiteral.MaxOf | svf/include/AbstractExecution/NumericLiteral.h:420-433 | the greatest element, minus infinity for none |
| NumericLiteral.MulBetween | svf/include/AbstractExecution/NumericLiteral.h:244-256 | a value between two bounds, times a fixed extended factor, lies between the bounds times that factor |
| NumericLiteral.DivBetweenNumerators | svf/include/AbstractExecution/NumericLiteral.h:258-275 | the quotient of a value between two bounds lies between the quotients of the bounds |
| NumericLiteral.DivBetweenDivisors | svf/include/AbstractExecution/NumericLiteral.h:258-275 | the quotient by a value between two bounds of one sign lies between the quotients by the bounds, infinite ones included |
| IntervalValue.BottomIffEmpty | svf/include/AbstractExecution/IntervalValue.h:60-63 | a well-formed interval is bottom iff it stands for no integer |
| IntervalValue.LeqIffIncluded | svf/include/AbstractExecution/IntervalValue.h:290-305 | the order of intervals is inclusion of the integers they stand for |
| IntervalValue.EqualsIffSame | svf/include/AbstractExecution/IntervalValue.h:326-342 | well-formed intervals are equal iff they hold the same integers |
| IntervalValue.JoinIsLeast | svf/include/AbstractExecution/IntervalValue.h:345-368 | the join is the least upper bound and stays well-formed |
| IntervalValue.MeetIsIntersection | svf/include/AbstractExecution/IntervalValue.h:408-421 | the meet stands for exactly the common integers |
| IntervalValue.IntervalValue.SetToBottom | svf/include/AbstractExecution/IntervalValue.h:276-280 | the interval becomes the empty one |
| IntervalValue.IntervalValue.JoinWith | svf/include/AbstractExecution/IntervalValue.h:345-368 | the object becomes the join, also with itself |
| IntervalValue.IntervalValue.WidenWith | svf/include/AbstractExecution/IntervalValue.h:371-387 | the object becomes the widening of its value by the other |
| IntervalValue.IntervalValue.NarrowWith | svf/include/AbstractExecution/IntervalValue.h:390-405 | reports whether the second read trips its assertion, which it does iff the first interval is unbounded below and the other lies above it; otherwise the object becomes the narrowing of its value by the other |
| IntervalValue.NarrowTripsIff | svf/include/AbstractExecution/IntervalValue.h:402-403 | the interval between the two assignments is empty iff the excluded condition holds; for well-formed operands, iff they share no integer while the first is unbounded below |
| IntervalValue.NarrowIsLeast | svf/include/AbstractExecution/IntervalValue.h:390-405 | narrowing by something below yields the least interval that holds it and keeps the finite bounds |
| IntervalValue.NarrowBounds | svf/include/AbstractExecution/IntervalValue.h:402-403 | for all operands: nothing if one is empty; else finite bounds stay and infinite ones become the other operand's |
| IntervalValue.WidenIsLeast | svf/include/AbstractExecution/IntervalValue.h:371-387 | widening yields the least interval above both whose bounds are the first operand's or infinite |
| IntervalValue.IntervalValue.MeetWith | svf/include/AbstractExecution/IntervalValue.h:408-421 | the object becomes the meet |
| Widening.WidenStep | svf/include/AbstractExecution/IntervalValue.h:371-387 | widening covers both operands, and changes a non-empty interval only by giving up a finite bound |
| Widening.WideningStopsInThree | svf/include/AbstractExecution/IntervalValue.h:371-387 | for every monotone F the widening sequence from bottom is a post-fixpoint after three steps and changes no more |
| Widening.WideningCovers | svf/include/AbstractExecution/IntervalValue.h:371-387 | its result covers every iterate of F from bottom |
| Widening.NarrowStep | svf/include/AbstractExecution/IntervalValue.h:390-405 | narrowing by something below stays between the two and never trips the assertion |
| Widening.NarrowingKeeps | svf/include/AbstractExecution/IntervalValue.h:390-405 | from a post-fixpoint on, narrowing keeps a post-fixpoint, descends, covers every iterate and never trips the assertion |
| Widening.NarrowingStopsInThree | svf/include/AbstractExecution/IntervalValue.h:390-405 | the narrowing sequence changes no more after three steps |
| Widening.NarrowCanTrip | svf/include/AbstractExecution/IntervalValue.h:402-403 | a concrete input outside the iteration that trips the assertion: [-oo, 3] narrowed by [5, 7] |
| IntervalArithmetic.CornersBoundProduct | svf/include/AbstractExecution/IntervalValue.h:495-512 | bounding the four corner products bounds every product |
| BestInterval.ApproachedIsBest | svf/include/AbstractExecution/IntervalValue.h:459-538 | an interval that holds all results and whose bounds the results approach is the least one |
| BestInterval.SumApproached | svf/include/AbstractExecution/IntervalValue.h:472 | sums of members come as close as asked for to the sums of the bounds |
| BestInterval.DifferenceApproached | svf/include/AbstractExecution/IntervalValue.h:490 | the same for differences |
| BestInterval.ProductApproached | svf/include/AbstractExecution/IntervalValue.h:504-507 | the same for the product of any two ends, infinite ones included |
| IntervalQuotients.QuotientApproached | svf/include/AbstractExecution/IntervalValue.h:529-532 | the same for the quotient of any two ends, except a negative finite end by an infinite one |
| IntervalArithmetic.CornersBoundQuotient | svf/include/AbstractExecution/IntervalValue.h:515-538 | bounding the four corner quotients bounds every quotient, when no divisor is zero |
| IntervalArithmetic.Add | svf/include/AbstractExecution/IntervalValue.h:459-474 | the least interval that holds every sum, infinite bounds included |
| IntervalArithmetic.Sub | svf/include/AbstractExecution/IntervalValue.h:477-492 | the least interval that holds every difference, infinite bounds included |
| IntervalArithmetic.Mul | svf/include/AbstractExecution/IntervalValue.h:495-512 | the least interval that holds every product, infinite bounds included |
| IntervalArithmetic.Div | svf/include/AbstractExecution/IntervalValue.h:515-538 | every quotient by a non-zero divisor lies in the result, infinite bounds included, and the exact condition under which it is the least such interval; with 0 among the divisors the answer is 0 or everything, without it the hull of the four quotients of the bounds |
| IntervalQuotients.CornersLeastIff | svf/include/AbstractExecution/IntervalValue.h:526-537 | without 0 among the divisors the corner quotients are the least interval iff the divisors are bounded or some dividend is not negative |
| IntervalQuotients.ZeroDivisorLeastIff | svf/include/AbstractExecution/IntervalValue.h:522-525 | with 0 among the divisors, [0, 0] is least iff there is another divisor, and everything is least iff the quotients are unbounded both ways |
| IntervalArithmetic.DivNotBest | svf/include/AbstractExecution/IntervalValue.h:522-536 | concrete inputs on which division is sound but too wide: -5 by 2 and more, and 5 by 0 to 2 |
| Bits.AndBounded | svf/include/AbstractExecution/IntervalValue.h:793-817 | a conjunction with a non-negative number is non-negative and at most that number |
| Bits.BitByBit | svf/include/AbstractExecution/NumericLiteral.h:297-310 | each bit of the result is the conjunction, disjunction or difference of the operands' bits |
| Bits.BitwiseBelow | svf/include/AbstractExecution/IntervalValue.h:820-846 | bit operations on numbers below a power of two stay below it |
| Bits.SixtyFourBits | svf/include/AbstractExecution/NumericLiteral.h:297-310 | bit operations on 64-bit numbers give 64-bit numbers |
| Bits.TruncatedBits | svf/include/AbstractExecution/BoundedZ3Expr.h:249-262 | converting the operands to 64-bit vectors truncates the result and does nothing else to it |
| Bits.NextPowerOf2 | svf/include/AbstractExecution/IntervalValue.h:822-830 | below 2^30 the least power of two from 2 on above the number; from 2^30 on the sign bit of a 32-bit one |
| ShiftCounts.NumeralNearest | svf/include/AbstractExecution/BoundedZ3Expr.h:349-372 | reading a bound as a number clips it to 64 bits: it compares with every 64-bit number as the bound does |
| LeftShifts.ShiftLeft | svf/include/AbstractExecution/IntervalValue.h:736-754 | the least interval of the products with the cast factors; it holds every shift by a non-negative count iff `LeftSound` and is the least that does iff `LeftLeast`, two conditions on the bounds of the operand and the counts |
| LeftShifts.BestScaled | svf/include/AbstractExecution/IntervalValue.h:749-752 | the least interval of the products with all factors between the powers is the least of the products with the powers |
| LeftShifts.SmallCountsLeast | svf/include/AbstractExecution/IntervalValue.h:749-752 | counts up to 30 meet the condition for the least interval |
| LeftShifts.SignBitSound | svf/include/AbstractExecution/IntervalValue.h:749-752 | counts up to 31 meet the condition for holding every shift iff an upper count 31 comes with a lower count 31 and a symmetric operand |
| LeftShifts.LeftHoldsAt | svf/include/AbstractExecution/IntervalValue.h:749-752 | under `LeftSound` what holds the products with the cast factors holds each shift |
| LeftShifts.LeftMisses | svf/include/AbstractExecution/IntervalValue.h:749-752 | without it the least interval of those products misses some shift |
| LeftShifts.LeftBest | svf/include/AbstractExecution/IntervalValue.h:749-752 | under `LeftLeast` it is the least interval of the shifts |
| LeftShifts.LeftLoose | svf/include/AbstractExecution/IntervalValue.h:749-752 | sound without it, the result holds a number that some interval of all shifts has not |
| LeftShifts.LeftShiftLoses | svf/include/AbstractExecution/IntervalValue.h:749-751 | concrete operands: 1 by 0 to 31 has empty factors, 1 by 2^32 has factor 1, and neither is sound |
| RightShifts.ShiftRight | svf/include/AbstractExecution/IntervalValue.h:757-790 | the hull of the four shifts of truncated ends by cast counts, operands around zero being split; it holds every floor quotient by the power of two of a non-negative count iff the hull of the exact ends lies within it, and is the least such interval iff they agree; for counts the cast keeps, iff no finite end sticks out of the 32-bit range on its side, and iff the stated condition on the ends |
| RightShifts.HullBest | svf/include/AbstractExecution/IntervalValue.h:757-790 | the hull of the exactly shifted ends is the least interval of all quotients, for every operand and all counts |
| RightShifts.KeptResult | svf/include/AbstractExecution/NumericLiteral.h:312-323 | for counts the cast keeps, the exact conditions in terms of the 32-bit range |
| RightShifts.FarCountsSound | svf/include/AbstractExecution/NumericLiteral.h:322 | for counts the cast changes and 32-bit ends, sound iff the operand is around zero, the counts are unbounded, or the cast counts shift the operand away too |
| RightShifts.RightShiftLoses | svf/include/AbstractExecution/NumericLiteral.h:322 | concrete operands: 5 by 2^32 comes out as 5 instead of 0 |
| RightShifts.TruncatedMisses | svf/include/AbstractExecution/IntervalValue.h:781-787 | an end beyond the 32-bit range on its bounded side has a shift that the truncated result misses |
| RightShifts.LeastBeyond | svf/include/AbstractExecution/IntervalValue.h:781-787 | beyond the 32-bit range on the unbounded side, the result is least iff the counts are unbounded and truncation keeps the sign |
| RightShifts.CornersBoundShift | svf/include/AbstractExecution/IntervalValue.h:779-788 | bounding the four corner shifts bounds every shift by a count in range |
| RightShifts.ShiftApproached | svf/include/AbstractExecution/IntervalValue.h:781-784 | shifts of members come as close as asked for to the shift of any two ends, infinite ones included |
| RightShifts.BestAroundZero | svf/include/AbstractExecution/IntervalValue.h:770-777 | the least intervals of the parts below and above zero, joined with zero, are the least interval of the whole |
| IntervalBits.BitAnd | svf/include/AbstractExecution/IntervalValue.h:793-817 | sound on all integers iff the operands are not single numbers that yield one beyond 64 bits, which is truncated; otherwise bounded below by 0 iff one side is non-negative, and above by each non-negative side |
| IntervalBits.BitOrXor | svf/include/AbstractExecution/IntervalValue.h:820-875 | sound on all integers iff no single result beyond 64 bits is truncated and, for two non-negative bounded operands, the greatest member plus one is below 2^30; the upper bound is then the least power of two above that, and the result is everything for all other operands but two single numbers |
| IntervalBits.OverlongTruncated | svf/include/AbstractExecution/BoundedZ3Expr.h:254-257 | a concrete conjunction of single numbers beyond 64 bits that loses them |
| TypeLayout.PeelAll | svf-llvm/lib/LLVMModule.cpp:1285-1337 | peeling all dimensions at once gives the list that repeating the immediate element gives |
| TypeLayout.ArrayIndex | svf-llvm/lib/LLVMModule.cpp:1317-1324 | the recorded index of element i is i times the flattened size of one immediate element |
| TypeLayout.PartSlice | svf-llvm/lib/LLVMModule.cpp:1346-1397 | each part occupies its slice of the flattened list, the next one starts where it ends, and the last ends the list |
| TypeLayout.PartsOrdered | svf-llvm/lib/LLVMModule.cpp:1346-1397 | the slices of two parts do not overlap and keep their order |
| TypeLayout.PartCovering | svf-llvm/lib/LLVMModule.cpp:1346-1397 | every flattened position lies in some part |
| TypeLayout.LeafInRange | svf-llvm/lib/LLVMModule.cpp:1283-1397 | a leaf path leads to a position of the flattened list, and the type there is the leaf's |
| TypeLayout.LeafInjective | svf-llvm/lib/LLVMModule.cpp:1283-1397 | different leaf paths lead to different positions |
| TypeLayout.LeafSurjective | svf-llvm/lib/LLVMModule.cpp:1283-1397 | without zero-length arrays every flattened position is reached by a leaf path |
| TypeLayout.LeavesCoverIff | svf-llvm/lib/LLVMModule.cpp:1283-1397 | the leaf paths reach every flattened position iff no array has zero elements, whose dummy element no path reaches |
| TypeCollector.ModuleTypes.CollectTypeInfo | svf-llvm/lib/LLVMModule.cpp:1202-1232 | the layout returned is recorded and describes the type (what its fields and elements then are is `FieldLayout.FieldsOfLayout` and `TypeLayout.LeavesCoverIff`); earlier records never change, and the largest struct is kept |
| TypeCollector.ModuleTypes.CollectSimpleTypeInfo | svf-llvm/lib/LLVMModule.cpp:1403-1415 | a non-aggregate is one element and one field |
| TypeCollector.ModuleTypes.CollectStructInfo | svf-llvm/lib/LLVMModule.cpp:1346-1397 | the recorded lists are the flattened ones and each field starts where its slice does |
| TypeCollector.ModuleTypes.CollectArrayInfo | svf-llvm/lib/LLVMModule.cpp:1283-1340 | the same for arrays, with the dummy element of an array of no elements |
| TypeCollector.FillArrayInfo | svf-llvm/lib/LLVMModule.cpp:1308-1338 | the loops over the innermost element's layout produce the layout of the whole array |
| TypeCollector.SameLayout | svf-llvm/lib/LLVMModule.cpp:1202-1232 | only one layout describes a type, so recorded and recomputed layouts agree |
| FieldLayout.FieldInRange | svf-llvm/lib/LLVMModule.cpp:1283-1415 | along a path that enters structs by any field and arrays once, the recorded field indices add up to a place of the field list, and the type there is the leaf's, the innermost element's for the dummy of an empty array |
| FieldLayout.FieldInjective | svf-llvm/lib/LLVMModule.cpp:1283-1415 | different paths lead to different places |
| FieldLayout.FieldSurjective | svf-llvm/lib/LLVMModule.cpp:1283-1415 | every place of the field list of every type is that of a path |
| FieldLayout.FieldsOfLayout | svf-llvm/lib/LLVMModule.cpp:1202-1232 | the paths of a type and the fields of every layout that describes it correspond one to one, in number and type |
| GepOffset.GepTypeIterator.Begin | svf-llvm/include/SVF-LLVM/GEPTypeBridgeIterator.h:162-168 | the walk starts at the source type, seen through the pointer |
| GepOffset.GepTypeIterator.Next | svf-llvm/include/SVF-LLVM/GEPTypeBridgeIterator.h:104-134 | the first step drops the pointer, every later one descends by the current index |
| GepOffset.ComputeGepOffset | svf-llvm/lib/SVFIRBuilder.cpp:283-333 | for every type, the sum of the offsets recorded for the walked types, layouts being collected on the way; the result is not constant iff a variable index moves a pointer to a single value |
| GepOffset.StepOffset | svf-llvm/lib/SVFIRBuilder.cpp:300-315 | one index adds the offset recorded for the part it selects, 0 in an array without elements |
| GepRange.OffsetAddressesTarget | svf-llvm/lib/SVFIRBuilder.cpp:285-332 | in a consistent type the flattened list of the addressed sub-object is the slice of the source's list at the offset |
| GepRange.OffsetInRange | svf-llvm/lib/SVFIRBuilder.cpp:285-332 | in a consistent type the offset is below the element count whenever the addressed sub-object is not empty |
| GepRange.OffsetAtMost | svf-llvm/lib/SVFIRBuilder.cpp:285-332 | no valid index list of any type leads beyond the largest offset computed from the type |
| GepRange.OffsetAttained | svf-llvm/lib/SVFIRBuilder.cpp:285-332 | some valid index list leads to it |
| GepRange.InRangeIff | svf-llvm/lib/SVFIRBuilder.cpp:285-332 | for every type, the offset is below the count for every valid index list iff the largest offset is |
| GepRange.ConsistentIffInPlace | svf-llvm/lib/LLVMModule.cpp:1294-1304 | a type is consistent iff every part of every aggregate in it has its list where the recorded offset says |
| GepRange.OutOfRangeIff | svf-llvm/lib/SVFIRBuilder.cpp:285-332 | in a consistent type one index list is out of range iff it addresses an empty part and nothing follows at any level |
| GepRange.OffsetAndRemaining | svf-llvm/lib/SVFIRBuilder.cpp:285-332 | for every type, the offset and what remains behind it make up the element count, so one index list is out of range iff nothing remains |
| GepRange.InRangeIffFillsEnd | svf-llvm/lib/SVFIRBuilder.cpp:285-332 | in a consistent type of 32-bit sizes it is below the count for every valid index list iff no empty part trails |
| GepRange.NonEmptySourceIsNotEnough | svf-llvm/lib/SVFIRBuilder.cpp:308-315 | a concrete non-empty source type and index list whose offset equals the count |
| GepRange.FlexibleArrayOfStructs | svf-llvm/lib/LLVMModule.cpp:1296-1304 | a concrete struct ending in a flexible array of pairs, with no empty part, and an index list whose offset equals the count |
| GepOffset.ArrayIndexElement | svf-llvm/lib/SVFIRBuilder.cpp:300-307 | exactly which constant array indices count as themselves and which as element 0 |
| GepOffset.SmallIndexOutside | svf-llvm/lib/SVFIRBuilder.cpp:302-303 | a 32-bit index outside the array adds nothing |
| GepOffset.WideIndexWraps | svf-llvm/lib/SVFIRBuilder.cpp:302-305 | a wider index outside the array can count as another element |
| GepRange.LeafPathOffset | svf-llvm/lib/SVFIRBuilder.cpp:285-332 | along a leaf path the offset is the leaf's position in the flattened list |
| DebugTypes.StripQualifiers | svf-llvm/lib/DCHG.cpp:753-804 | the type beneath the qualifiers |
| DebugTypes.TeqSymmetric | svf-llvm/lib/DCHG.cpp:818-928 | type equality is symmetric |
| DebugTypes.TeqTransitive | svf-llvm/lib/DCHG.cpp:818-928 | type equality is transitive, so with reflexivity an equivalence |
| DebugTypes.TeqIffSameForm | svf-llvm/lib/DCHG.cpp:818-928 | two types are equal iff each by itself has the same form: class of encoding with size and alignment, indirection over the form of the base, any enumeration, a class's identifier, a tag with name, file and line, or the node itself |
| HierarchyTables.OneCanonicalType | svf-llvm/lib/DCHG.cpp:712-751 | two types have the same canonical type iff they are equal |
| HierarchyTables.FormsApart | svf-llvm/lib/DCHG.cpp:712-751 | canonical types of the same form are one |
| HierarchyTables.OneNode | svf-llvm/lib/DCHG.cpp:405-421 | two types share a node iff they are equal, that is iff they have the same form |
| HierarchyTables.BelowIsReach | svf-llvm/lib/DCHG.cpp:222-265 | the set the search computes is the set of nodes that reach the type |
| HierarchyTables.FollowedIff | svf-llvm/lib/DCHG.cpp:235-250 | inheritance and standard edges are followed, first-field edges iff the flag is on, and instance edges never |
| HierarchyTables.BaseOfPreorder | svf-llvm/lib/DCHG.cpp:665-674 | being a base is reflexive up to type equality and transitive, and following first fields only adds bases |
| HierarchyTables.RankedBelowIff | svf-llvm/lib/DCHG.cpp:222-265 | the rank the search below a node needs to terminate exists iff nothing below it lies on a cycle of the edges followed |
| HierarchySearch.SearchEndsIff | svf-llvm/lib/DCHG.cpp:222-265 | the cached recursive search ends at some call depth iff nothing below the node lies on a cycle of the edges followed, but for nodes with cached answers |
| HierarchySearch.NeverEnds | svf-llvm/lib/DCHG.cpp:222-265 | below a cycle of which no node has a cached answer it ends at no call depth |
| HierarchySearch.SearchAnswers | svf-llvm/lib/DCHG.cpp:262-264 | a search that ends leaves an answer for its node and for all below, and new ones for no node on a cycle |
| HierarchyTables.AcyclicIffRanked | svf-llvm/lib/DCHG.cpp:515-529 | a rank of the whole hierarchy exists iff no node reaches itself |
| HierarchyClosing.ReachesVoidIff | svf-llvm/lib/DCHG.cpp:515-529 | with or without cycles, closing puts below void exactly the nodes that climbed to void, to char or to a node with nothing above it |
| HierarchyClosing.ClosingIff | svf-llvm/lib/DCHG.cpp:515-529 | closing adds standard edges only: from char to void, and to char from every other node with nothing above it |
| HierarchyClosing.ReachesVoid | svf-llvm/lib/DCHG.cpp:515-529 | if there was no cycle and every edge is of a kind the queries follow, every node comes to lie below void |
| HierarchyClosing.LoopStaysOut | svf-llvm/lib/DCHG.cpp:515-529 | a node whose edges only lead back to itself does not come below void |
| HierarchyClosing.ClosingAcyclicIff | svf-llvm/lib/DCHG.cpp:515-529 | the closed hierarchy is acyclic iff it was before, void had nothing above it and nothing above char but void was without something above it |
| TypeHierarchy.DCHGraph.GetCanonicalType | svf-llvm/lib/DCHG.cpp:712-751 | the answer equals the type, has its form and is canonical; canonical types stay pairwise different; an answer once given never changes |
| TypeHierarchy.DCHGraph.Answers | svf-llvm/lib/DCHG.cpp:712-751 | over every history of queries two answers agree iff the types have the same form |
| TypeHierarchy.DCHGraph.GetOrCreateNode | svf-llvm/lib/DCHG.cpp:405-421 | one node per canonical type, numbered in order of creation; an existing node changes nothing |
| TypeHierarchy.DCHGraph.AddEdge | svf-llvm/lib/DCHG.cpp:423-438 | the edge between the canonical types' nodes is there afterwards and no other is new; it leads back to where it starts iff the types have the same form |
| TypeHierarchy.DCHGraph.HasEdge | svf-llvm/lib/DCHG.cpp:440-457 | finds an edge of the kind between the nodes iff there is one |
| TypeHierarchy.DCHGraph.Cha | svf-llvm/lib/DCHG.cpp:222-265 | if nothing below the type lies on a cycle of the edges followed, the answer is exactly what reaches the type along them, whatever was asked before, and every cached answer stays exact |
| TypeHierarchy.DCHGraph.Descend | svf-llvm/lib/DCHG.cpp:234-260 | under the same condition the union over the in-edges followed, with the node itself, is everything that reaches the node |
| TypeHierarchy.DCHGraph.IsBase | svf-llvm/lib/DCHG.cpp:665-674 | if nothing below the first type lies on a cycle of the edges followed, true iff the second type's node reaches the first's |
| TypeHierarchy.DCHGraph.CloseUnderVoid | svf-llvm/lib/DCHG.cpp:515-529 | with or without cycles: exactly the closing edges are new; a type lies below void afterwards iff it climbed to void, to char or to a type with nothing above it, as all do without cycles and instance edges; the hierarchy is acyclic iff it was before, void had nothing above it and char led up to nothing but void |
| TypeHierarchy.ClassesWithoutIdentifier | svf-llvm/lib/DCHG.cpp:905-908 | two classes without identifier, one deriving from the other, become one node with an edge to itself that closing leaves out of void's reach and below which the search ends at no call depth |
| ClassClosures.ClosedVisit | svf-llvm/lib/CHGBuilder.cpp:270-291 | a closed visited set yields by its edges exactly what is one or more inheritance steps above the start |
| ClassClosures.InheritancePairsAre | svf-llvm/lib/CHGBuilder.cpp:278-284 | only inheritance edges lead up, whatever other kinds there are |
| ClassHierarchy.CHGraph.ScanParents | svf-llvm/lib/CHGBuilder.cpp:275-288 | one class's parents become ancestors of the start, gain it as descendant, and are queued |
| ClassHierarchy.CHGraph.WalkUp | svf-llvm/lib/CHGBuilder.cpp:269-291 | a class gains exactly the classes above it as ancestors, and each of these gains it as descendant |
| ClassHierarchy.CHGraph.BuildAncestorsDescendants | svf-llvm/lib/CHGBuilder.cpp:262-293 | the ancestors map is the transitive closure of the inheritance edges and the descendants map its converse, with or without cycles |
| VirtualFunctionIds.Unvisited | svf-llvm/lib/CHGBuilder.cpp:538-576 | the visited set left by earlier searches holds nothing an unvisited class is connected to |
| VirtualFunctionIds.WholeGroup | svf-llvm/lib/CHGBuilder.cpp:551-576 | what a finished search visited is the whole connected component |
| VirtualFunctionIds.NeighboursAre | svf-llvm/lib/CHGBuilder.cpp:561-574 | a group joins classes by edges of every kind, in either direction |
| VirtualFunctionIds.FunctionsInAre | svf-llvm/lib/CHGBuilder.cpp:581-595 | a function belongs to a group iff it stands in some vector of one of its classes |
| VirtualFunctionIds.StringLessIff | svf-llvm/lib/CHGBuilder.cpp:612-624 | names are compared by the first character in which they differ, a prefix being less |
| VirtualFunctionIds.RankFollowsKeys | svf-llvm/lib/CHGBuilder.cpp:612-624 | positions in a block follow the order of demangled name and address and leave no gap |
| VirtualFunctionIds.BlockInNameOrder | svf-llvm/lib/CHGBuilder.cpp:612-624 | in a block the ID of one function is less than that of another iff its name comes first or, for the same name, its address does, and the IDs span no more than there are functions |
| VirtualFunctionIds.NumberGroup | svf-llvm/lib/CHGBuilder.cpp:612-624 | numbering a group gives it its block and takes from earlier blocks only the functions it shares |
| VirtualFunctionIds.IsolatedBlock | svf-llvm/lib/CHGBuilder.cpp:612-624 | a group that shares no function keeps one contiguous sorted block |
| ClassHierarchy.CHGraph.CollectGroup | svf-llvm/lib/CHGBuilder.cpp:551-576 | the search finds exactly the weakly connected component of its root despite the shared visited set |
| ClassHierarchy.CHGraph.PushNeighbours | svf-llvm/lib/CHGBuilder.cpp:561-574 | all classes one edge away, in either direction, are pushed and counted in |
| ClassHierarchy.CHGraph.GatherFunctions | svf-llvm/lib/CHGBuilder.cpp:581-595 | the set of all functions in the group's vtable vectors |
| ClassHierarchy.CHGraph.NumberFunctions | svf-llvm/lib/CHGBuilder.cpp:612-624 | consecutive new IDs in the order of name and address; other functions keep theirs; IDs stay unique |
| ClassHierarchy.CHGraph.NumberGroupOf | svf-llvm/lib/CHGBuilder.cpp:546-624 | one round extends the visited set by a whole group and gives the group its block |
| ClassHierarchy.CHGraph.BuildVirtualFunctionToIDMap | svf-llvm/lib/CHGBuilder.cpp:530-626 | the final map is injective and total on virtual functions, each group has a contiguous sorted block but for functions a later group shares, and a group sharing none has it whole, in the order of names and then addresses |
| Decimal.ReadsBack | benchmark/pts_diff.cpp:45-49 | a printed number reads back up to the first character that is no digit |
| Decimal.ShowsDecimal | benchmark/pts_diff.cpp:83-86 | a number is printed by its decimal digits without leading zeros |
| Decimal.AtoiReadsBack | benchmark/pts_diff.cpp:33 | a printed node number reads back |
| Decimal.ExtractReadsBack | benchmark/pts_diff.cpp:45-49 | stream extraction of a printed number, with or without a space in front, yields it and the text behind it |
| PtsText.ParsesEntry | benchmark/pts_diff.cpp:25-38 | a printed line parses to its node and its objects; with no objects the brace is taken for them |
| PtsText.ReadsObjs | benchmark/pts_diff.cpp:40-50 | the object text of a printed line yields exactly its objects |
| PtsText.ReadsNoEmptyEntries | benchmark/pts_diff.cpp:23-51 | whatever the text, no entry that was read is empty |
| PtsText.SkipsHeader | benchmark/pts_diff.cpp:17-21 | any lines in front of the first rule are skipped |
| PtsText.SkipsAll | benchmark/pts_diff.cpp:17-21 | a text without a rule is skipped to its end |
| PtsText.FindIsFirst | benchmark/pts_diff.cpp:29 | the search for the arrow finds its first place, and none iff there is none |
| PtsText.ParseLineIff | benchmark/pts_diff.cpp:28-38 | reading stops at a rule, a line without an arrow or one that does not end in a brace; otherwise the node is the number in front of the first arrow |
| PtsText.ReadsWhatLinesSay | benchmark/pts_diff.cpp:23-51 | an object is read for a node iff it was there before or some line in front of the one that stops says it: what several lines say of a node adds up |
| PtsText.DifferenceIff | benchmark/pts_diff.cpp:65-77 | an object stays with a node iff only the first map has it there, and a node keeps an entry iff it keeps an object or is not in the second map |
| PtsText.PrintedForm | benchmark/pts_diff.cpp:81-89 | the text of a concrete map of one node with two objects |
| PtsText.RoundTrip | benchmark/pts_diff.cpp:11-52 | reading a printed map yields it with {0} for every empty entry, so the map itself iff it has no empty entry |
| PtsText.EmptyEntryReadsAsZero | benchmark/pts_diff.cpp:36-50 | a concrete map with an empty entry that does not read back |
| PtsDiff.ReadPtsFromFile | benchmark/pts_diff.cpp:11-52 | the loops read the map the text stands for, from any stream state |
| PtsDiff.ReadObjects | benchmark/pts_diff.cpp:43-49 | the node gains exactly the extracted objects |
| PtsDiff.Subtract | benchmark/pts_diff.cpp:65-77 | node by node the objects of the first map that the second has not, without entries that come to nothing |
| PtsDiff.Print | benchmark/pts_diff.cpp:81-89 | the text is the map's rendering, nodes and objects ascending |
| PtsDiff.Diff | benchmark/pts_diff.cpp:54-94 | the file written reads back as the difference of the maps read from the two input files |

## Left out

- BlockOrder: the counter, cycle depth numbers and the infinity are unbounded; their 32-bit overflow is not modelled.
- BlockOrder: the partition list is passed and returned instead of updated through a reference, and components are values, so their ownership and deletion are not modelled.
- TailBuilder: the depth table is a copy, not a reference to the builder's map, which does not change meanwhile.
- WTOCycleDepth's comparison operators other than `<=` follow from `Compare`; `>=`, which calls `<=`, is not modelled.
- FunctionBody: LLVM instructions beyond opcode, operands and PHI entries (types, names, metadata), statistics counters, and functions without bodies.
- UsesDominated: the control flow between blocks is a parameter, as the targets of terminators are not part of the instructions.
- RunOnModule: identities of instructions are numbers and every function draws from its own supply, as no function refers to another's instructions.
- IntervalValue: symbolic Z3 expressions and Z3 contexts; bounds are integers or infinities.
- IntervalValue: `geq` with an empty operand, the comparison operators that return intervals, `%`, printing.
- ShiftLeft: counts that are not 0 to 31 after the cast to 32 bits, which the language leaves undefined; counts beyond 64 bits saturate and are among them.
- ShiftRight: the same counts.
- BitOrXor: operands whose larger bound plus one needs more than 31 bits, where the power-of-two loop shifts by 32 or more.
- ModuleTypes: overflow of the 32-bit sizes; layouts are values, so sharing of layout objects is not modelled; the map from field numbers to types.
- ModuleTypes: recursion of LLVM types through pointers, whose targets are not flattened and count as scalars.
- OffsetAddressesTarget: asks for a consistent type; with a zero-length array of aggregates in it, some part is not where its recorded offset says (`ConsistentIffInPlace`).
- ValidWalk: the assertion on looking up an element beyond the dummy of an array without elements is a precondition.
- ComputeGepOffset: the list of offset variables and types, byte offsets, and the mode in which the source does not model arrays; layouts of pointer types are not collected.
- DCHGraph: flattening of fields, containing aggregates, typedef sets and vtables.
- DCHGraph: nodes come from the caller's types; scanning a module's debug information is not modelled.
- AddEdge: edges added after a query leave cached answers as they are; the source asks only after building.
- StripQualifiers: the assertion on inheritance and friend entries is a precondition.
- CHGraph: classes are numbered and every class name belongs to one node; creating nodes and edges from constructors and vtables is not modelled.
- CHGraph: name demangling is a function parameter, and the 32-bit overflow of IDs is not modelled.
- InStream: files are texts; a file that cannot be opened, and writing failures.
- Atoi: a node number out of the 32-bit range is clamped, where C leaves the result undefined.
- ReadText: the variable that receives objects is unset at first; its initial value is a parameter, the same for every line.
- Diff: the two command-line inputs and the output are values.
