# Lcode: verified models of the hard parts

IMPACT's Lcode layer holds the low-level code of a function as blocks (`L_Cb`) of predicated
operations (`L_Oper`) joined by flow arcs, and ships analyses, transformations, a binary file
format and profiling support for it. This project models the parts of that layer whose
correctness is not visible from reading one function, and proves what they are for.

| file | what it holds |
|---|---|
| `Collections.dfy` | `Option`, and facts on sets and sequences used in several places |
| `BoolFunc.dfy` | Boolean functions as sets of valuations |
| `BdfGraph.dfy` | exit functions and arcs of a block in the Boolean dataflow graph |
| `BdfLiveness.dfy` | gen and kill functions of a block, computed in one forward scan |
| `LiveVariables.dfy` | global propagation, and what a live-in set means as walks |
| `FlowLiveness.dfy` | live variables from operations and flow arcs, against executions |
| `Dominators.dfy` | dominator sets by iteration, against the path definition |
| `BinaryCodec.dfy` | base-64 integers, flagged integers, strings, as streams and as functions |
| `BinaryExpr.dfy` | expressions compressed by a last-label memory on both sides |
| `BinaryOperand.dfy` | operands, and the string and operand tables |
| `Flags.dfy` | flag words as the letters they are written with |
| `BinaryOper.dfy`, `BinaryBody.dfy` | operation, block and body records as a printer and a parser |
| `BinaryObjects.dfy` | the objects the reader builds from records, found by id and linked in lists |
| `BinaryViews.dfy`, `BinaryKnown.dfy`, `BinaryDistinct.dfy` | objects seen as values; what holds of every function that is read |
| `BinarySamples.dfy` | the bytes of a sample function and a sample expression |
| `BinaryStreams.dfy` | the operation reader and writer on streams, with operand objects |
| `BinaryInterning.dfy` | building the string and operand tables |
| `BinaryFunction.dfy` | a whole function as a printer, a parser of its records and a builder of objects, and the round trip |
| `FunctionStreams.dfy` | blocks and whole functions on streams, with one pool of operand objects |
| `ControlFlow.dfy` | reachability, the mirror of source and destination arcs, dead blocks |
| `EmptyBlocks.dfy` | removal of empty blocks, rebuilt source arcs |
| `IterTable.dfy` | the loop-iteration profiler's hash table |
| `CallGraph.dfy` | arcs threaded on two doubly linked lists at once |
| `AddrPred.dfy`, `LoopOrder.dfy` | address-prediction marking of loads, loops visited inner first |
| `AccSpec.dfy` | access-specifier independence tests and merge |
| `Appendix.dfy` | attribute placement: list scan and remembered decisions |

Conventions. Code that updates state is a class or a method with loops; each such method is tied
by its `ensures` to a specification function or to a statement about its inputs, and the lemmas
are about that specification. `L_punt`, a null dereference, an `exit` and a traversal that runs in
a circle are a failure value (`None`, `Fail`, `Bad`, `Punt`, `Failed` or `ok == false`), never a
precondition. A decision diagram is the set of valuations on which it is true; nothing depends on
which predicate variables exist.

Main results

- Liveness: the propagation terminates, and a register is in a block's live-in set exactly when
  some walk of exits, each taken under a valuation that has executed no write of it, leads to a
  block whose first access is a read (`LiveVariables.LiveFlow.Run`). With the exits built from
  operations and flow arcs, no execution of the operations reads a register first that is not
  live (`FlowLiveness.LiveVariablesOf`).
- Exits: which arcs a block gets and where they go is told by its branches and its list of flows
  alone (`BdfGraph.ExitTargets`, `BdfGraph.ExitFunctions`, `BdfGraph.StuckExactly`).
- Dominators: the loop terminates with exactly the nodes on every path from the start
  (`Dominators.DomFlow.Run`), which is every node when there is no path.
- Binary format: what comes back is not the function written but a closed form of it. For every
  function with distinct operation and block ids, writing it with the tables of its own scan and
  reading it again gives the function with local gp labels made global, immediates narrowed to 32
  bits, and the flags set that the reader sets (`H` where an operation is predicated, `R` and `I`
  for prologues and epilogues, `L` for a function without calls), or is refused: exactly when an
  operation has id 0, a frame-size define has no integer source, or a `max_cb_id` attribute has
  no field. Hence it is the same function exactly when it is accepted, no operand is a local gp
  label or a wider immediate, and its flags are complete (`BinaryFunction.FunctionRoundTrip`,
  field by field `BinaryFunction.ReadFollows`; on streams and with operand objects, none of them
  in two slots, `FunctionStreams.WriteThenRead`).
- Repeated ids: the reader finds objects by id, so a repeated id changes an object that is
  already linked in. Whatever the bytes, what is read has no two blocks with one id and no block
  with two operations of one id (`BinaryDistinct.ReadIsDistinct`), so a function that has them
  never comes back; an operation repeated at the end of a block is linked to itself and reading
  never returns (`BinaryFunction.RepeatedIdIsNotRead`).
- Expressions: a run of trees comes back exactly when in print order no empty label follows a
  non-empty one or a non-empty starting memory (`BinaryExpr.ExprsComeBack`).
- Flagged integers read back exactly when they are not negative (`BinaryCodec.SpecialRoundTrip`).
- Empty blocks: the pass succeeds exactly when every arc has a non-empty block to go on to, sends
  each arc there, clears the condition code of exactly the arcs it sends on that have no branch,
  and keeps all traces when empty blocks fall through (`EmptyBlocks.RemoveEmptyBlocks`).
- Address prediction: a load is marked for prediction exactly when it does not address the chosen
  base register plus a constant and reads no register that a load can reach
  (`AddrPred.Counters.CheckLoop`).
- Loop order: `L_sort_loops` gets an array straight from the allocator and reports improper
  nesting only if a slot it could not fill happens to hold 0. It sorts whenever the nesting is
  proper and no id is 0, and the exact condition under which it stops is given for every array
  (`LoopOrder.SortLoops`); what is then marked is given for every array too
  (`LoopOrder.FindLinkedListBase`).
- Independence of accesses: the comparison is exact on bytes for all sizes except hollow extents
  (`AccSpec.ClashIsMeet`).

Where code and comments disagree the code is followed: the cb format comment
(src/Lcode/Lcode/l_binaryio.c:2438) omits the flags and the weight that are written.

## Model

| member | source | states |
|---|---|---|
| BdfGraph.ExitFunction | src/Lcode/Lcode/l_bdf_graph.c:480-513 | the three differently composed if-then-elses all denote: reached, predicate true, and for a conditional branch condition true |
| BdfGraph.RegisterArcs | src/Lcode/Lcode/l_bdf_graph.c:528-536 | a register branch gets one arc for each flow not used yet, in flow order, all with the same function |
| BdfGraph.BuildExits | src/Lcode/Lcode/l_bdf_graph.c:467-549 | the scan fails exactly when a branch finds no flow or no condition; otherwise its arcs are those defined by "not left before and fires now", without the running execution function, and they go where the branches and the list of flows say |
| BdfGraph.ExitTargets | src/Lcode/Lcode/l_bdf_graph.c:467-549 | return arcs go to the stop node; the other arcs use up the flows in order, all of them after a register branch; a jump, conditional branch or return has one arc; the fall-through exists iff a flow is left over and goes to the next one |
| BdfGraph.ExitFunctions | src/Lcode/Lcode/l_bdf_graph.c:480-537 | an exit is taken iff its operation fires and no earlier one but a register branch does, the fall-through iff none at all does |
| BdfGraph.StuckExactly | src/Lcode/Lcode/l_bdf_graph.c:492-505 | the scan fails exactly at a conditional branch without a condition and at a jump for which no flow is left |
| BdfGraph.ResidualStep | src/Lcode/Lcode/l_bdf_graph.c:485-488 | what remains after an operation is what remained before minus its exit, except after a register branch |
| BdfGraph.ArcsUpToShape | src/Lcode/Lcode/l_bdf_graph.c:470-538 | each arc carries the exit set of its operation, and two arcs of one operation come only from a register branch |
| BdfGraph.ArcsInOpOrder | src/Lcode/Lcode/l_bdf_graph.c:470-544 | arcs follow operation order with the fall-through last, as the exit cursor of the gen/kill scan needs, and each arc implies its operation's predicate |
| BdfGraph.ExitsPartition | src/Lcode/Lcode/l_bdf_graph.c:467-549 | without register branches the exits are pairwise disjoint and with the residual cover every valuation |
| BdfGraph.ExitOverlap | src/Lcode/Lcode/l_bdf_graph.c:523-537 | for all blocks: two exits overlap exactly when the earlier one is a register branch, and on which valuations |
| BdfLiveness.AddOperandExcl | src/Lcode/Lcode/l_bdf_flow.c:158-195 | one operand adds exactly the valuations of its access that the other table has not claimed |
| BdfLiveness.AddOperandsExcl | src/Lcode/Lcode/l_bdf_flow.c:158-195 | the same for an operand list, register by register, and which registers get an entry |
| BdfLiveness.GenSetSup | src/Lcode/Lcode/l_bdf_flow.c:204-219 | exactly the registers whose function covers the given one |
| BdfLiveness.GenSetIsect | src/Lcode/Lcode/l_bdf_flow.c:228-246 | exactly the registers whose function meets the given one, decided through a complement |
| BdfLiveness.ScanOper | src/Lcode/Lcode/l_bdf_flow.c:274-277 | after each operation a valuation is in gen(r) iff the first access of r under it is a read and in kill(r) iff it is a write, so the two stay disjoint |
| BdfLiveness.FirstAccessIs | src/Lcode/Lcode/l_bdf_flow.c:274-277 | by positions: first a read iff some operation reads r with no write before it, its own write coming later; first a write iff some operation writes r with no read before it or in it |
| BdfLiveness.KillSet | src/Lcode/Lcode/l_bdf_flow.c:278-286 | the registers written up to the exit whose first access is a write under every valuation of the exit |
| BdfLiveness.KillsIs | src/Lcode/Lcode/l_bdf_flow.c:278-286 | by positions: an exit kills r iff an operation up to and with the branch names r as a destination, and under every valuation of the exit one of them writes r before any reads it |
| BdfLiveness.KillSetsAt | src/Lcode/Lcode/l_bdf_flow.c:271-282 | the cursor gives each exit of an operation its kill set and misses none |
| BdfLiveness.GenSet | src/Lcode/Lcode/l_bdf_flow.c:288 | the registers first read under some valuation |
| BdfLiveness.BuildGkUp | src/Lcode/Lcode/l_bdf_flow.c:254-295 | gen set of the block and kill set of every exit, each using only the operations up to that exit |
| BdfLiveness.FirstAccessOfPrefix | src/Lcode/Lcode/l_bdf_flow.c:274-283 | a first access seen by an exit is the first access of the block |
| BdfLiveness.UntouchedDefinesNothing | src/Lcode/Lcode/l_bdf_flow.c:158-195 | first access and "some write executes" agree on untouched and on write-first registers |
| LiveVariables.LiveFlow.PropUp | src/Lcode/Lcode/l_bdf_flow.c:298-330 | replaces a set only if it would grow, and then keeps every claim justified by a path and lowers the measure; reports a change iff the block was not closed |
| LiveVariables.LiveFlow.LocalPhase | src/Lcode/Lcode/l_bdf_flow.c:433-441 | all local sets are exact and live-in starts as gen |
| LiveVariables.LiveFlow.Round | src/Lcode/Lcode/l_bdf_flow.c:447-450 | a round without change means every block is closed |
| LiveVariables.LiveFlow.Propagate | src/Lcode/Lcode/l_bdf_flow.c:443-452 | terminates, with live-in exactly the least fixpoint: some exit path avoids every kill set and ends in a gen set |
| LiveVariables.LiveFlow.Run | src/Lcode/Lcode/l_bdf_flow.c:426-452 | live-in is exactly liveness by walks under valuations, soundness and completeness |
| LiveVariables.LiveIffWalk | src/Lcode/Lcode/l_bdf_flow.c:254-330 | paths over the computed sets and walks over the operations are the same |
| LiveVariables.PathOfWalk | src/Lcode/Lcode/l_bdf_flow.c:254-330 | soundness: a walk that keeps a register alive crosses no exit that kills it |
| LiveVariables.WalkOfPath | src/Lcode/Lcode/l_bdf_flow.c:254-330 | completeness: each path gives a walk |
| LiveVariables.CrossExit | src/Lcode/Lcode/l_bdf_flow.c:278-286 | an exit that does not kill a register lets it through under some valuation, or follows a read of it |
| LiveVariables.ClosedContainsPaths | src/Lcode/Lcode/l_bdf_flow.c:443-452 | closed sets hold every live path |
| LiveVariables.ClosedIsExact | src/Lcode/Lcode/l_bdf_flow.c:443-452 | justified and closed together are the least fixpoint |
| LiveVariables.ReplaceKeeps | src/Lcode/Lcode/l_bdf_flow.c:317-324 | replacing (not joining) a set loses nothing |
| LiveVariables.MissingDrops | src/Lcode/Lcode/l_bdf_flow.c:445-452 | the registers not yet listed are a termination measure |
| LiveVariables.BuiltBlockIsValid | src/Lcode/Lcode/l_bdf_graph.c:467-549 | what the graph builder produces meets the assumptions of the analysis |
| FlowLiveness.GraphIsValid | src/Lcode/Lcode/l_bdf_graph.c:398-552 | so does the graph of a whole function |
| FlowLiveness.OwnedArc | src/Lcode/Lcode/l_bdf_graph.c:467-549 | the flow that a branch or the fall-through owns is reached by an arc of its own |
| FlowLiveness.ExecutedReadIsLive | src/Lcode/Lcode/l_bdf_flow.c:254-330 | an execution of operations that reads a register with no write of it on the way gives a walk over the exits: the analysis misses no live register |
| FlowLiveness.LiveVariablesOf | src/Lcode/Lcode/l_bdf_flow.c:426-452 | exits built from operations and flow arcs, then the analysis: fails iff some block's exit scan does; else live-in is exactly liveness by walks over those exits, and covers every execution of the operations |
| Dominators.DomFlow.Initialize | src/Lcode/Lcode/l_bdf_cnt_dep.c:66-76 | the start holds itself, every other node the whole universe, so all true dominators are in |
| Dominators.DomFlow.Refine | src/Lcode/Lcode/l_bdf_cnt_dep.c:98-120 | no true dominator is lost, a change shrinks the total, no change means stable |
| Dominators.DomFlow.Round | src/Lcode/Lcode/l_bdf_cnt_dep.c:95-121 | a round without change leaves every node stable |
| Dominators.DomFlow.Run | src/Lcode/Lcode/l_bdf_cnt_dep.c:66-124 | terminates; d is in dom(n) iff d is on every path from the start to n |
| Dominators.DominatesPred | src/Lcode/Lcode/l_bdf_cnt_dep.c:103-107 | a dominator of n other than n dominates each predecessor |
| Dominators.StableIsOnPath | src/Lcode/Lcode/l_bdf_cnt_dep.c:93-123 | in a stable state every claimed dominator is on every path |
| Dominators.TotalDrops | src/Lcode/Lcode/l_bdf_cnt_dep.c:111-116 | the sizes of the sets are a termination measure |
| BinaryCodec.IntRoundTrip | src/Lcode/Lcode/l_binaryio.c:325-392 | every int but the minimum comes back whatever follows it, and exactly its bytes are consumed |
| BinaryCodec.WideRoundTrip | src/Lcode/Lcode/l_binaryio.c:251-318 | the reader of wide integers gets back every 32-bit integer, the minimum included |
| BinaryCodec.SpecialRoundTrip | src/Lcode/Lcode/l_binaryio.c:586-630 | a flagged integer comes back if and only if it is not negative |
| BinaryCodec.MinusKeepsSpecialBit | src/Lcode/Lcode/l_binaryio.c:341-384 | after a minus sign the reader keeps the flag in the magnitude, so the value read is always too small |
| BinaryCodec.SpecialBitSeparates | src/Lcode/Lcode/l_binaryio.h:63-70 | a peek tells flagged integers from counts and ids |
| BinaryCodec.StringRoundTrip | src/Lcode/Lcode/l_binaryio.c:146-197 | non-empty 7-bit strings come back and exactly their bytes are consumed |
| BinaryCodec.DigitBuffer | src/Lcode/Lcode/l_binaryio.c:560-572 | the buffer loop finds the base-64 digits without leading zeros, and six are enough |
| BinaryCodec.Output.WriteDigits | src/Lcode/Lcode/l_binaryio.c:560-577 | the flag goes on the first digit and the delimiter on the last |
| BinaryCodec.Output.WriteInt | src/Lcode/Lcode/l_binaryio.c:537-579 | appends the encoding of the integer and nothing else |
| BinaryCodec.Output.WriteIntSpecial | src/Lcode/Lcode/l_binaryio.c:586-630 | appends the flagged encoding and nothing else |
| BinaryCodec.Output.WriteString | src/Lcode/Lcode/l_binaryio.c:431-450 | appends the delimited string; an empty string writes nothing |
| BinaryCodec.Input.ReadInt | src/Lcode/Lcode/l_binaryio.c:325-392 | the digit loop is the integer decoder, failing at end of input and on overflow |
| BinaryCodec.Input.ReadWide | src/Lcode/Lcode/l_binaryio.c:251-318 | the digit loop of the wide reader is its decoder, failing at end of input and beyond 64 bits |
| BinaryCodec.Input.ReadString | src/Lcode/Lcode/l_binaryio.c:146-197 | the character loop is the string decoder for all inputs; what callers see ends at the first NUL of the buffer |
| BinaryExpr.KindReread | src/Lcode/Lcode/l_binaryio.c:886-976 | for any two memories: each kind of node reads back, a label for which no text was written as the label the reader remembers |
| BinaryExpr.ExprReread | src/Lcode/Lcode/l_binaryio.c:879-1062 | for any two memories and any checked tree, empty labels included: which tree and memory the reader ends with, and that exactly the written bytes are consumed |
| BinaryExpr.ExprsReread | src/Lcode/Lcode/l_binaryio.c:879-1062 | the same for runs of trees |
| BinaryExpr.RereadIsSame | src/Lcode/Lcode/l_binaryio.c:1011-1019 | from equal memories a tree is read as itself iff its labels are kept, and then the memories are equal again |
| BinaryExpr.ExprsComeBack | src/Lcode/Lcode/l_binaryio.c:879-1062 | a run comes back with both memories in step iff in print order no empty label follows a non-empty one or a non-empty starting memory |
| BinaryExpr.ExprsRoundTrip | src/Lcode/Lcode/l_binaryio.c:879-1062 | runs of checked trees with non-empty labels come back from any common memory, the two memories end equal, exactly the written bytes are consumed |
| BinaryExpr.LabelComesBack | src/Lcode/Lcode/l_binaryio.c:1011-1019 | a label comes back iff it is not empty or nothing is remembered |
| BinaryExpr.ExprWriter.PrintPayload | src/Lcode/Lcode/l_binaryio.c:996-1024 | writes a payload and updates the label memory, skipping a repeated label |
| BinaryExpr.ExprWriter.Print | src/Lcode/Lcode/l_binaryio.c:989-1062 | the recursive printer writes the specified bytes and leaves the specified memory |
| BinaryExpr.ExprReader.ReadKind | src/Lcode/Lcode/l_binaryio.c:886-976 | the reader of one node, for all inputs, malformed ones included |
| BinaryExpr.ExprReader.ReadExpr | src/Lcode/Lcode/l_binaryio.c:879-984 | the recursive reader is the specified parser, for all inputs |
| BinaryOperand.OperandRoundTrip | src/Lcode/Lcode/l_binaryio.c:1493-1915 | every operand is read back, whatever follows: a local gp label as a global one, an immediate as its low 32 bits, any other as itself; so it comes back iff it is not a local gp label and not an immediate outside 32 bits |
| BinaryOperand.NoLocalGpLabelRead | src/Lcode/Lcode/l_binaryio.c:1584-1598 | no bytes at all read as a local gp label |
| BinaryOperand.StringsRoundTrip | src/Lcode/Lcode/l_binaryio.c:2723-2727 | the string table comes back in order |
| BinaryOperand.OperandsRoundTrip | src/Lcode/Lcode/l_binaryio.c:2749-2755 | the operand table is read back entry by entry, each as the reader makes it |
| BinaryOperand.OldTags | src/Lcode/Lcode/l_binaryio.c:1580-1675 | labels and strings tagged without a scope read as global |
| BinaryOperand.PrintOperand | src/Lcode/Lcode/l_binaryio.c:1727-1915 | writes the tag and fields of each kind of operand, immediates of any width narrowed |
| BinaryOperand.ReadOperand | src/Lcode/Lcode/l_binaryio.c:1493-1725 | the tag switch is the specified parser for all inputs: unknown tags, types and macros, texts that are no numbers and wide immediates included |
| BinaryOperand.ReadStrings | src/Lcode/Lcode/l_binaryio.c:2723-2727 | the string loop is the specified parser |
| BinaryOperand.ReadOperands | src/Lcode/Lcode/l_binaryio.c:2749-2755 | the operand loop is the specified parser |
| BinaryOperand.PrintStrings | src/Lcode/Lcode/l_binaryio.c:2985-2990 | writes the string table in order |
| BinaryOperand.PrintOperands | src/Lcode/Lcode/l_binaryio.c:2992-2995 | writes the operand table in order |
| Flags.FlagsRoundTrip | src/Lcode/Lcode/l_flagsio.c:61-412 | a word of printed flags comes back from its string |
| Flags.FlagStringSnoc | src/Lcode/Lcode/l_flagsio.c:154-200 | flags are printed in the fixed order |
| Flags.StringToFlags | src/Lcode/Lcode/l_flagsio.c:61-151 | the letter loop gives the flags of a string, in either case, and stops exactly at a letter without a meaning |
| BinaryOper.IdsRoundTrip | src/Lcode/Lcode/l_binaryio.c:2054-2069 | operand ids read back as the operands of the table that was read, empty slots included |
| BinaryOper.SlotsRoundTrip | src/Lcode/Lcode/l_binaryio.c:2356-2361 | a counted list is read back and never looks like the end of a record |
| BinaryOper.AttrRoundTrip | src/Lcode/Lcode/l_binaryio.c:1941-1995 | an attribute is read back, its operands as the reader makes them |
| BinaryOper.AttrsRoundTrip | src/Lcode/Lcode/l_binaryio.c:2417-2420 | an attribute list is read back in order |
| BinaryOper.AttrPartRoundTrip | src/Lcode/Lcode/l_binaryio.c:2128-2162 | the attribute section, present or dropped, is recovered from the next byte |
| BinaryOper.PredPartRoundTrip | src/Lcode/Lcode/l_binaryio.c:2107-2127 | the same for predicates and what follows |
| BinaryOper.FlagIdRoundTrip | src/Lcode/Lcode/l_binaryio.c:2094-2106 | the flags behind a written flag string id are the flags written; id 0 names none |
| BinaryOper.FlagPartRoundTrip | src/Lcode/Lcode/l_binaryio.c:2094-2106 | the same for flags and what follows |
| BinaryOper.DestPartRoundTrip | src/Lcode/Lcode/l_binaryio.c:2073-2093 | the same for destinations and what follows |
| BinaryOper.SrcPartRoundTrip | src/Lcode/Lcode/l_binaryio.c:2046-2072 | the same for sources and what follows |
| BinaryOper.OperRoundTrip | src/Lcode/Lcode/l_binaryio.c:2015-2432 | the record of an operation with any sections left out is read whenever something flagged, or nothing, follows; it starts flagged itself |
| BinaryBody.ZeroIdIsParentMark | src/Lcode/Lcode/l_binaryio.c:2775 | the flagged encoding of an id starts with the parent mark iff the id is 0 |
| BinaryBody.OpersRoundTrip | src/Lcode/Lcode/l_binaryio.c:2767-2805 | the records of an operation list are read iff no id is 0, else reading fails |
| BinaryBody.ParentIsSetAside | src/Lcode/Lcode/l_binaryio.c:2775-2790 | a record behind the parent mark is read and does not count as an operation |
| BinaryBody.FlowsRoundTrip | src/Lcode/Lcode/l_binaryio.c:1917-1939 | flow arcs come back |
| BinaryBody.HeaderRoundTrip | src/Lcode/Lcode/l_binaryio.c:2443-2485 | block headers are read back, flags by their letters, and start flagged |
| BinaryBody.CbRoundTrip | src/Lcode/Lcode/l_binaryio.c:2443-2591 | the records of a block are read iff none of its operations has id 0, else reading fails |
| BinaryBody.BodyRoundTrip | src/Lcode/Lcode/l_binaryio.c:2760-2812 | the records of a whole body with its closing word are read iff no operation has id 0, else reading fails |
| BinaryObjects.ChainGrows | src/Lcode/Lcode/l_code.c:5945-5958 | a new id linked behind the last one extends the list by it and changes one link |
| BinaryObjects.ChainIsWalked | src/Lcode/Lcode/l_binaryio.c:2817-2828 | a traversal of a proper list meets its ids in order |
| BinaryObjects.RepeatedLastIsCircle | src/Lcode/Lcode/l_code.c:5945-5958 | linking the last element in once more makes every traversal endless |
| BinaryObjects.DistinctIdsCollect | src/Lcode/Lcode/l_binaryio.c:2759-2806 | records with distinct ids: linking and lookup by id leave exactly the blocks and operations of the records, in order, each as if nothing else had been read, with every flag set on the way, on blocks and on the function |
| BinaryObjects.RepeatedOperIsCircle | src/Lcode/Lcode/l_code.c:2601-2611 | a record with the id of the one before it reuses the object, and the block it is in cannot be traversed |
| BinaryObjects.SecondOperRecord | src/Lcode/Lcode/l_binaryio.c:2194-2197 | after two records of one operation: each slot as listed last, the attributes of both, the flags named last |
| BinaryObjects.SecondBlockRecord | src/Lcode/Lcode/l_binaryio.c:2468-2500 | after two records of one block: the flows and attributes of both, the weight of the second, the flags named last |
| BinaryViews.ViewEnterBlocks | src/Lcode/Lcode/l_binaryio.c:2759-2806 | building objects from records commutes with looking at the operands behind their slots, repeated ids included |
| BinaryViews.ViewCollected | src/Lcode/Lcode/l_binaryio.c:2817-2828 | so does the traversal of the result |
| BinaryInterning.InternConcat | src/Lcode/Lcode/l_binaryio.c:643-864 | interning piece by piece is interning the whole |
| BinaryInterning.InternExact | src/Lcode/Lcode/l_binaryio.c:643-864 | the table has no duplicates, keeps earlier positions, and holds exactly what was met |
| BinaryInterning.FindIsPosition | src/Lcode/Lcode/l_binaryio.c:1468-1491 | the id printed for an entry is its position in the emitted table |
| BinaryInterning.SymbolTables.AddOper | src/Lcode/Lcode/l_binaryio.c:740-830 | the loops over one operation intern its strings and operands in the order met |
| BinaryInterning.SymbolTables.AddCb | src/Lcode/Lcode/l_binaryio.c:696-736 | the same for a block |
| BinaryInterning.SymbolTables.Build | src/Lcode/Lcode/l_binaryio.c:643-864 | the scan of a function interns everything it meets |
| BinaryInterning.CbsCovered | src/Lcode/Lcode/l_binaryio.c:1477-1484 | when every operand and string of the blocks is in the tables, every record is one the format can carry |
| BinaryInterning.CbsAreKnown | src/Lcode/Lcode/l_binaryio.c:643-864 | the printers know every operand of the blocks iff the table holds every operand the scan meets in them |
| BinaryInterning.OwnTables | src/Lcode/Lcode/l_binaryio.c:643-864 | the tables of a function's own scan hold each of its strings and operands once, so the unknown-operand exit is not taken |
| BinaryFunction.FunctionRoundTrip | src/Lcode/Lcode/l_binaryio.c:2671-3006 | header, both tables, function attributes, blocks and closing word, for distinct ids: the function read is the closed form ReadBack (labels made global, immediates narrowed, flags added), byte for byte consumed, or reading fails iff the function is not accepted; it is the function written iff it is accepted, its operands survive and its flags are complete |
| BinaryFunction.ReadFollows | src/Lcode/Lcode/l_binaryio.c:2759-2876 | field by field, for accepted functions with distinct ids: a block read has R iff written with it or some operation is a prologue, I likewise for epilogues, H iff written with it or some operation is predicated; the function has H likewise, and L iff no operation is a call; no other flag changes; the contents are the same |
| BinaryFunction.AcceptedExactly | src/Lcode/Lcode/l_binaryio.c:2646-2870 | what is accepted, field by field: no id 0, an integer source for every define of a frame size, a first field for max_cb_id |
| BinaryFunction.ParseRoundTrip | src/Lcode/Lcode/l_binaryio.c:2671-2812 | for all functions, repeated ids included: the records of a written function are read iff no operation has id 0 |
| BinaryFunction.TrimPad | src/Lcode/Lcode/l_binaryio.c:2243-2280 | storing trimmed slots over empty ones undoes the dropping of trailing empty slots; interior ones survive |
| BinaryFunction.PlainIsReturned | src/Lcode/Lcode/l_binaryio.c:2045-2162 | the object made from the record of an operation is the operation, its operands as the reader makes them |
| BinaryFunction.AssembleRecords | src/Lcode/Lcode/l_binaryio.c:2759-2876 | from the records of a written function with distinct ids the reader builds ReadBack, or stops at a frame size that is no integer or a missing field |
| BinaryFunction.FunctionSame | src/Lcode/Lcode/l_code.c:5963-5967 | ReadBack changes nothing iff every operand survives and every flag the reader sets is right already |
| BinaryFunction.RepeatedIdIsNotRead | src/Lcode/Lcode/l_code.c:5945-5968 | an operation repeated at the end of the block: written, it is never read back, whatever follows |
| BinarySamples.SampleFunction | src/Lcode/Lcode/l_binaryio.c:2908-3006 | a function with one block and one operation, byte by byte: order of header fields, tables, flows, operation sections and ids |
| BinarySamples.SampleTags | src/Lcode/Lcode/l_binaryio.c:1735-1905 | the letter in front of every kind of operand |
| BinarySamples.SampleExpr | src/Lcode/Lcode/l_binaryio.c:989-1062 | a sum of two equal labels, byte by byte: the second label is left out |
| BinarySamples.SampleExprTags | src/Lcode/Lcode/l_binaryio.c:995-1056 | the letter in front of every kind of expression node |
| BinaryFunction.FnHeaderRoundTrip | src/Lcode/Lcode/l_binaryio.c:2962-2983 | the function header comes back |
| BinaryFunction.TablesRoundTrip | src/Lcode/Lcode/l_binaryio.c:2711-2755 | what the reader holds after the header and both tables of a written function |
| BinaryKnown.BodyReadKnown | src/Lcode/Lcode/l_binaryio.c:2760-2806 | whatever the bytes, every operand of the records of a body comes from the operand table |
| BinaryKnown.AssembledKnown | src/Lcode/Lcode/l_binaryio.c:2759-2876 | building objects brings in no other operand, however often ids repeat |
| BinaryKnown.ReadHasNoLocalGpLabel | src/Lcode/Lcode/l_binaryio.c:2671-2812 | whatever the bytes, a function that is read holds no local gp label |
| BinaryDistinct.WalkIsDistinct | src/Lcode/Lcode/l_binaryio.c:2817-2828 | a traversal that ends meets no object twice |
| BinaryDistinct.ReadIsDistinct | src/Lcode/Lcode/l_binaryio.c:2671-2876 | whatever the bytes, a function that is read has distinct block ids and distinct operation ids in each block |
| BinaryStreams.OperandPool.Take | src/Lcode/Lcode/l_binaryio.c:2057-2068 | the first request gets the table's object, later ones a copy; never an object given out before |
| BinaryStreams.OperandPool.ReadIds | src/Lcode/Lcode/l_binaryio.c:2054-2069 | the id loop is the specified parser and hands out one object per filled slot |
| BinaryStreams.OperReader.ReadAttr | src/Lcode/Lcode/l_binaryio.c:1941-1971 | the attribute reader is the specified parser |
| BinaryStreams.OperReader.ReadRestFromSrc | src/Lcode/Lcode/l_binaryio.c:2045-2162 | reading the sections in turn is the specified parser for all inputs |
| BinaryStreams.OperReader.ReadOper | src/Lcode/Lcode/l_binaryio.c:2015-2191 | one record: the specified value, with an object in each slot that no earlier slot holds |
| BinaryStreams.OperReader.ReadOpers | src/Lcode/Lcode/l_binaryio.c:2766-2805 | the operation loop with parent records: the specified records; the objects in their slots differ from each other and from all handed out before, and the pool counts them as handed out |
| BinaryStreams.TakesBoth | src/Lcode/Lcode/l_binaryio.c:2057-2068 | objects taken from the pool in two turns are all different and new |
| BinaryStreams.OperWriter.CountSlots | src/Lcode/Lcode/l_binaryio.c:2243-2280 | counting down from the end gives the slots without trailing empties |
| BinaryStreams.OperWriter.PrintOperandId | src/Lcode/Lcode/l_binaryio.c:1468-1491 | writes the table position, or 0 for an empty slot; fails exactly on an operand the table does not hold |
| BinaryStreams.OperWriter.PrintAttr | src/Lcode/Lcode/l_binaryio.c:1973-1995 | writes the specified attribute bytes; fails exactly on an unknown operand |
| BinaryStreams.OperWriter.PrintParts | src/Lcode/Lcode/l_binaryio.c:2348-2425 | stopping early writes exactly the sections up to the last non-empty one; fails exactly on an unknown operand |
| BinaryStreams.OperWriter.PrintOper | src/Lcode/Lcode/l_binaryio.c:2227-2432 | writes the specified record; fails exactly on an unknown operand |
| BinaryStreams.OperWriter.PrintOpers | src/Lcode/Lcode/l_binaryio.c:2574-2580 | writes the records of a block one after the other; fails exactly on an unknown operand |
| FunctionStreams.ReadHeader | src/Lcode/Lcode/l_binaryio.c:2453-2485 | the block header reader is the specified parser for all inputs |
| FunctionStreams.ReadFlows | src/Lcode/Lcode/l_binaryio.c:2487-2491 | the flow loop is the specified parser for all inputs |
| FunctionStreams.ReadCb | src/Lcode/Lcode/l_binaryio.c:2443-2504 | the records of a block: the specified values, with attribute and operation slots that share no object with each other or with anything read before |
| FunctionStreams.FunctionReader.ReadBody | src/Lcode/Lcode/l_binaryio.c:2759-2812 | the block loop and closing word: the specified records, the objects they leave, found by id and linked in with the flags set, and no two slots of the records share an operand object, nor share one with anything read before |
| FunctionStreams.FunctionReader.EnterAll | src/Lcode/Lcode/l_binaryio.c:2793-2801 | the operations of a block are looked up, filled in and linked in one after the other |
| FunctionStreams.FunctionReader.Finish | src/Lcode/Lcode/l_binaryio.c:2817-2876 | the traversals after reading: fails exactly where the specified builder does, and gives the leaf flag |
| FunctionStreams.ViewAssemble | src/Lcode/Lcode/l_binaryio.c:2759-2876 | a function built from operand objects is, by its operands, the one the specified builder gives |
| FunctionStreams.AssembledObjects | src/Lcode/Lcode/l_binaryio.c:2057-2068 | from records with distinct ids the function holds exactly the operand objects of the records, in order |
| FunctionStreams.ReadFunction | src/Lcode/Lcode/l_binaryio.c:2671-2876 | a whole function for all inputs: the specified value; and when no record repeats an id, no two slots of its attributes, its blocks' attributes and its operations share an operand object |
| FunctionStreams.PrintHeader | src/Lcode/Lcode/l_binaryio.c:2539-2559 | writes the specified block header |
| FunctionStreams.PrintFlows | src/Lcode/Lcode/l_binaryio.c:2561-2567 | writes the specified flow arcs |
| FunctionStreams.PrintCb | src/Lcode/Lcode/l_binaryio.c:2506-2591 | writes the specified block; fails exactly on an unknown operand |
| FunctionStreams.PrintBody | src/Lcode/Lcode/l_binaryio.c:3001-3006 | writes the blocks and the closing word; fails exactly on an unknown operand |
| FunctionStreams.PrintFunction | src/Lcode/Lcode/l_binaryio.c:2908-3006 | scans a function and writes it with its own tables; no operand is ever missing |
| FunctionStreams.WriteThenRead | src/Lcode/Lcode/l_binaryio.c:2671-3006 | writer and reader together, for distinct ids: ok iff accepted, and then ReadBack is read with no operand object in two slots; it is the function written iff it is accepted, its operands survive and its flags are complete |
| ControlFlow.FlowGraph.Visit | src/Lcode/Lcode/l_controlflow.c:388-397 | terminates on cyclic graphs; marks only reachable blocks and leaves no unmarked successor of a newly marked one |
| ControlFlow.FlowGraph.MarkReachable | src/Lcode/Lcode/l_controlflow.c:428-429 | marks exactly the blocks reachable from the first one |
| ControlFlow.FlowGraph.Disconnect | src/Lcode/Lcode/l_controlflow.c:440-447 | removes a block's arcs and keeps the mirror, parallel arcs included |
| ControlFlow.FlowGraph.DisconnectUnvisited | src/Lcode/Lcode/l_controlflow.c:434-453 | exactly the unmarked blocks become dead and lose their arcs |
| ControlFlow.FlowGraph.DeleteDeadBlocks | src/Lcode/Lcode/l_controlflow.c:399-415 | the layout without the dead blocks, and their number |
| ControlFlow.FlowGraph.DeleteUnreachableBlocks | src/Lcode/Lcode/l_controlflow.c:417-461 | exactly the reachable blocks stay, in order and with their arcs; the count is right; no arc names a deleted block; the mirror holds |
| ControlFlow.ClosedHoldsReachable | src/Lcode/Lcode/l_controlflow.c:388-397 | a set closed under arcs holds all that its members reach |
| ControlFlow.RemoveMirrored | src/Lcode/Lcode/l_controlflow.c:443-446 | removing one arc from both lists keeps the mirror as multisets |
| ControlFlow.KeepMirror | src/Lcode/Lcode/l_controlflow.c:406-413 | dropping disconnected blocks keeps the mirror |
| EmptyBlocks.RedirectBlock | src/Lcode/Lcode/l_controlflow.c:122-143 | each arc into the empty block goes to the next one with its branch operand, and only an arc without a branch loses its condition code |
| EmptyBlocks.RemoveAtPosition | src/Lcode/Lcode/l_controlflow.c:119-146 | one removal leaves no dangling arc, keeps branches in step, and each arc ends up where the original one would |
| EmptyBlocks.RemoveLast | src/Lcode/Lcode/l_controlflow.c:128 | an empty last block can go only if no other block has an arc to it |
| EmptyBlocks.NextCut | src/Lcode/Lcode/l_controlflow.c:128 | taking out an empty block does not change which non-empty block comes next |
| EmptyBlocks.NextIs | src/Lcode/Lcode/l_controlflow.c:114-128 | by positions: an arc ends up at the first non-empty block from its target on |
| EmptyBlocks.ForwardedIsSentOn | src/Lcode/Lcode/l_controlflow.c:128-138 | by branches: the condition code of an arc with a branch stays, that of an arc without one is cleared iff the arc was sent on |
| EmptyBlocks.RemovalKeepsTraces | src/Lcode/Lcode/l_controlflow.c:108-150 | one removal keeps exactly the sequences of non-empty blocks, both directions |
| EmptyBlocks.RemovalKeepsShape | src/Lcode/Lcode/l_controlflow.c:108-150 | empty blocks still fall through after a removal, so chains of them work |
| EmptyBlocks.SkipWalk | src/Lcode/Lcode/l_controlflow.c:126-128 | an old walk without the removed block is a new walk |
| EmptyBlocks.Unskip | src/Lcode/Lcode/l_controlflow.c:126-128 | each new walk comes from an old one |
| EmptyBlocks.IncomingCount | src/Lcode/Lcode/l_controlflow.c:88-99 | the collected incoming arcs of a block are the arcs that name it, with multiplicity |
| EmptyBlocks.RebuildSrcFlow | src/Lcode/Lcode/l_controlflow.c:76-100 | the source lists are the transpose of the destination lists |
| EmptyBlocks.RemoveEmptyBlocks | src/Lcode/Lcode/l_controlflow.c:108-150 | succeeds iff every arc of a non-empty block has a non-empty block at or after its target; then exactly the non-empty blocks stay, each arc goes to that block, condition codes stay on arcs with a branch (all arcs of a register jump) and are cleared on arcs without one that were sent on, the mirror holds; with fall-through empties the traces are the same |
| IterTable.RunCounts | platform/x86lin_gcc/impact_pprof_lib.c:448-489 | on the abstract list: after any run of calls each weight is the number of calls with that non-zero count, in order of first occurrence |
| IterTable.RecordWeight | platform/x86lin_gcc/impact_pprof_lib.c:478-488 | one call raises one weight by one and no other |
| IterTable.SymbolTable.Find | platform/x86lin_gcc/impact_pprof_lib.c:298-317 | walking one chain finds the symbol iff it is anywhere in the table |
| IterTable.ChainsGrow | platform/x86lin_gcc/impact_pprof_lib.c:281-286 | putting a symbol in front of its chain keeps every chain linked both ways |
| IterTable.SymbolTable.Rehash | platform/x86lin_gcc/impact_pprof_lib.c:174-197 | the new chains partition the contents by remainder, in reverse order of entry |
| IterTable.SymbolTable.Resize | platform/x86lin_gcc/impact_pprof_lib.c:155-208 | doubles the size, keeps contents and the bound on the count |
| IterTable.SymbolTable.Append | platform/x86lin_gcc/impact_pprof_lib.c:246-254 | the contents list grows at the end, linked both ways |
| IterTable.SymbolTable.Enter | platform/x86lin_gcc/impact_pprof_lib.c:243-289 | a new symbol joins the contents list and its chain |
| IterTable.SymbolTable.Add | platform/x86lin_gcc/impact_pprof_lib.c:214-293 | fails exactly on a count already present; otherwise the table stays valid, within 75 percent of a doubled 32 |
| IterTable.SymbolTable.CountNew | platform/x86lin_gcc/impact_pprof_lib.c:482-488 | after a failed search the duplicate exit is not reachable, and the entry starts at weight 1 |
| IterTable.SymbolTable.CountAgain | platform/x86lin_gcc/impact_pprof_lib.c:487-488 | one entry's weight grows by one |
| IterTable.SymbolTable.Update | platform/x86lin_gcc/impact_pprof_lib.c:451-489 | one call does to the list of (count, weight) pairs exactly what the abstract step does |
| IterTable.Profile | platform/x86lin_gcc/impact_pprof_lib.c:451-489 | any run of calls on a new table ends with exactly the counts of the calls, in order of first occurrence |
| CallGraph.UnlinkDst | src/Lcode/Lcode/l_callgraph.c:106-115 | unlinking by neighbours takes one arc out of the outgoing list and keeps all links |
| CallGraph.UnlinkSrc | src/Lcode/Lcode/l_callgraph.c:117-126 | the same for the incoming list |
| CallGraph.RemoveDst | src/Lcode/Lcode/l_callgraph.c:158-178 | unlinking by position takes out the same arc with the same result |
| CallGraph.RemoveSrc | src/Lcode/Lcode/l_callgraph.c:180-200 | the same for the incoming list |
| CallGraph.TakeOffDst | src/Lcode/Lcode/l_callgraph.c:98-201 | both routines leave the list without the arc |
| CallGraph.TakeOffSrc | src/Lcode/Lcode/l_callgraph.c:98-201 | the same for the incoming list |
| CallGraph.LinkDst | src/Lcode/Lcode/l_callgraph.c:232-251 | appending keeps every node's outgoing list consistent |
| CallGraph.LinkSrc | src/Lcode/Lcode/l_callgraph.c:253-270 | the same for incoming lists |
| CallGraph.Graph.FindNode | src/Lcode/Lcode/l_callgraph.c:413-436 | returns the one node of that name, created only if missing, so names stay unique |
| CallGraph.Graph.AddArc | src/Lcode/Lcode/l_callgraph.c:203-273 | the new arc is last on exactly its caller's and its callee's list, self calls included; other lists are unchanged |
| CallGraph.Graph.DeleteArc | src/Lcode/Lcode/l_callgraph.c:98-129 | every list is as before without the arc, which is freed once |
| CallGraph.Graph.Unthread | src/Lcode/Lcode/l_callgraph.c:155-201 | both unlink routines give the same lists in the whole graph |
| CallGraph.Graph.DeleteIncoming | src/Lcode/Lcode/l_callgraph.c:143-153 | frees exactly the arcs into the node, while the list it walks shrinks under it |
| CallGraph.Graph.DeleteOutgoing | src/Lcode/Lcode/l_callgraph.c:131-141 | frees exactly the arcs out of the node |
| CallGraph.Graph.DeleteFirstNode | src/Lcode/Lcode/l_callgraph.c:380-397 | frees exactly the arcs touching the node and removes it; the graph stays valid |
| CallGraph.Graph.Delete | src/Lcode/Lcode/l_callgraph.c:518-534 | nothing is left and every arc has been freed exactly once |
| AddrPred.CollectLoads | src/Lcode/Lcode/l_addrpred.c:108-133 | all load destinations are listed once, and the base is that of the first load that replaces its own address register |
| AddrPred.CloseRound | src/Lcode/Lcode/l_addrpred.c:144-178 | a round adds only registers some chain reaches; without change the list is closed |
| AddrPred.LoadedRegisters | src/Lcode/Lcode/l_addrpred.c:135-179 | terminates with exactly the registers reached from a load by a chain of non-stores, the least closed set |
| AddrPred.ClosedHoldsCarried | src/Lcode/Lcode/l_addrpred.c:137-142 | a closed set holds whatever a chain reaches |
| AddrPred.ClosedIsLeast | src/Lcode/Lcode/l_addrpred.c:137-142 | closed and reached by chains is the least closed set |
| AddrPred.CountUses | src/Lcode/Lcode/l_addrpred.c:189-225 | the table maps each address register to its number of uses, in order of first use |
| AddrPred.MostUsedBase | src/Lcode/Lcode/l_addrpred.c:187-245 | the register with the most uses, at least two, first used earliest among equals; -2 when there is none |
| AddrPred.FirstChasedIs | src/Lcode/Lcode/l_addrpred.c:119-131 | by positions: the base is the address register of the first unmarked load that replaces it |
| AddrPred.UsesIs | src/Lcode/Lcode/l_addrpred.c:190-225 | a register's uses are the number of unmarked loads that address by it plus a constant |
| AddrPred.FirstUseIs | src/Lcode/Lcode/l_addrpred.c:190-225 | the first use is the position of the first such load |
| AddrPred.Counters.MarkLoad | src/Lcode/Lcode/l_addrpred.c:257-294 | the branches give the right mark: early iff it reads the base plus a constant, else predicted iff it reads no register a load can reach; one counter rises |
| AddrPred.Counters.MarkLoads | src/Lcode/Lcode/l_addrpred.c:247-295 | each unmarked load gets exactly one mark, all other ops keep theirs, and each counter rises by the number of its marks |
| AddrPred.MarkIsRight | src/Lcode/Lcode/l_addrpred.c:264-293 | the mark a load gets, told by base and chains |
| AddrPred.TallyCounts | src/Lcode/Lcode/l_addrpred.c:247-295 | a tally is the number of loads with that mark |
| AddrPred.TalliesAddUp | src/Lcode/Lcode/l_addrpred.c:247-295 | the three counters together rise by the number of unmarked loads |
| AddrPred.Counters.CheckLoop | src/Lcode/Lcode/l_addrpred.c:77-306 | the whole loop analysis: every unmarked load gets one mark, set up early iff it reads the base plus a constant, else predicted iff it reads no register a load can reach; each counter rises by the number of such loads; none is left unmarked |
| LoopOrder.SortLoops | src/Lcode/Lcode/l_addrpred.c:309-336 | for every array: it punts iff the loops that can be placed include id 0 or a slot beyond them held 0 before; all loops are placed iff the nesting is proper; unfilled slots keep what they held |
| LoopOrder.WithinFull | src/Lcode/Lcode/l_addrpred.c:318-331 | whatever is placed inner first lies within every arrangement that cannot be continued |
| LoopOrder.SameFull | src/Lcode/Lcode/l_addrpred.c:318-331 | all such arrangements have the same loops |
| LoopOrder.FullExists | src/Lcode/Lcode/l_addrpred.c:318-331 | and there always is one |
| LoopOrder.SomeReady | src/Lcode/Lcode/l_addrpred.c:320-330 | a proper nesting never gets stuck |
| LoopOrder.StuckMeansCyclic | src/Lcode/Lcode/l_addrpred.c:332-333 | getting stuck means the nesting has a cycle or a dangling id |
| LoopOrder.AllPlaced | src/Lcode/Lcode/l_addrpred.c:318-334 | as many distinct ids as loops are a permutation of the loop ids |
| LoopOrder.ArrangedMeansNested | src/Lcode/Lcode/l_addrpred.c:318-334 | conversely, a complete arrangement shows the nesting is proper |
| LoopOrder.VisitLoop | src/Lcode/Lcode/l_addrpred.c:357-367 | a visit marks exactly the loads of the loop that no earlier visit has marked |
| LoopOrder.VisitLoops | src/Lcode/Lcode/l_addrpred.c:354-370 | the loop over the sorted array: where it stops, what is marked by which loop and base, and how each counter rises |
| LoopOrder.BaseStep | src/Lcode/Lcode/l_addrpred.c:357-367 | the base of each visit is the one chosen among the loads that visit decides |
| LoopOrder.FirstIsInnermost | src/Lcode/Lcode/l_addrpred.c:339-375 | in an inner-first order the first loop visited around a load is an innermost one |
| LoopOrder.FindLinkedListBase | src/Lcode/Lcode/l_addrpred.c:339-375 | for every array: when it fails and how far it got; each load is marked at most once, by the loop around it that is visited first, with the right mark for that loop and the base chosen in it; for proper nestings every load of any loop is marked, by an innermost loop around it; each counter rises by the number of its marks |
| AccSpec.ClashIsMeet | src/Lcode/Lcode/l_accspec.c:172-191 | for all sizes: the comparison says whether a byte is shared, except exactly on hollow extents, which positive or unknown sizes never form |
| AccSpec.ConflictsIsShareByte | src/Lcode/Lcode/l_accspec.c:166-195 | on meaningful sizes the test is exact on bytes and symmetric |
| AccSpec.ListsIndependent | src/Lcode/Lcode/l_accspec.c:82-100 | 1 iff no object is in both lists, and then the byte test finds no conflict either |
| AccSpec.Independent | src/Lcode/Lcode/l_accspec.c:127-200 | the result code for all inputs, and exactness on bytes without struct calls and sync arcs |
| AccSpec.MergedConflicts | src/Lcode/Lcode/l_accspec.c:370-412 | the merged list conflicts with exactly what either list did, on both sides of the test, for all sizes |
| AccSpec.MergedStandsForBoth | src/Lcode/Lcode/l_accspec.c:370-412 | the receiving list stays in front, each donated specifier is stood for, nothing else is added |
| AccSpec.MergeIsIdempotent | src/Lcode/Lcode/l_accspec.c:370-412 | merging again, or with itself, changes nothing |
| AccSpec.Oper.Search | src/Lcode/Lcode/l_accspec.c:377-394 | finds a specifier that stands for the donated one iff there is one, else ends at the last cell |
| AccSpec.Oper.Append | src/Lcode/Lcode/l_accspec.c:396-409 | a fresh copy is linked at the end |
| AccSpec.Oper.Merge | src/Lcode/Lcode/l_accspec.c:370-412 | the linked list becomes the merged list by fresh cells only, the donor is untouched, merging an op with itself included |
| Appendix.PlainToken | src/Lcode/Lcode/l_appendix.c:92-106 | the pointer comparison matches iff the token is the name, or a prefix of it before a final star |
| Appendix.ScanTokens | src/Lcode/Lcode/l_appendix.c:70-121 | the first token that is malformed or matches decides, for all lists |
| Appendix.ScanList | src/Lcode/Lcode/l_appendix.c:70-121 | on a well-formed list a name is found iff some token matches it |
| Appendix.AnswerIsUnique | src/Lcode/Lcode/l_appendix.c:70-121 | a list gives a name one answer |
| Appendix.WellFormedAnswer | src/Lcode/Lcode/l_appendix.c:70-121 | on a well-formed list that answer is whether some token matches |
| Appendix.DecisionIsUnique | src/Lcode/Lcode/l_appendix.c:149-168 | lists and default give a name one place |
| Appendix.WellFormedDecision | src/Lcode/Lcode/l_appendix.c:149-168 | over well-formed lists: the appendix iff not in the code list, and by default or in the appendix list |
| Appendix.AttributeTable.ShouldGoInAppendix | src/Lcode/Lcode/l_appendix.c:123-224 | the remembered answer is the one the lists give, and remembered answers never change |
| Appendix.AttributeTable.AnswerAll | src/Lcode/Lcode/l_appendix.c:123-224 | any sequence of queries is answered as if nothing were remembered |

## Left out

- Post-dominators: the loop in l_bdf_cnt_dep.c starts from the dominator sets (line 138), so the textbook statement does not hold of it.
- Per-operation liveness (phase III): its two table updates compute the same function (l_bdf_flow.c:139-148).
- Predecessor lists and entry arc of the graph builder: the list stores a node where an arc is read (l_bdf_graph.c:114); dominators are stated over arbitrary predecessor lists instead.
- LiveVariables.LiveFlow.Run: a read that comes after a taken exit still counts as a read of the block, as in the code, and an exit whose function is false is passed only by registers no operation up to it names as a destination; the walks say so.
- FlowLiveness.LiveVariablesOf: leaves out the start node, whose only arc leads to itself.
- FlowLiveness.ExecutedReadIsLive: executions pick the valuation of each block's predicates freely, and the flows of a block belong to its first register branch.
- Decision-diagram sharing and reference counts, allocation pools, and the List, Set and hash-table libraries: replaced by sets, maps and sequences.
- 32-bit overflow of profile weights, table sizes, offsets plus sizes and counters: these are unbounded integers.
- BinaryCodec.Input.ReadInt: an overflow of the value, undefined in C, is a failure; `&` and `|` with the format's masks are written as arithmetic on byte values.
- Minimum int: its negation, undefined in C, is taken to wrap, so it is written with magnitude 2^31; the 32-bit reader then fails on it and the wide one does not. `L_binary_write_intmax` narrows to 32 bits and indexes past its buffer (l_binaryio.c:486-527) and is not modelled.
- Floating-point values: carried as the text that is written; `atof` and `sprintf` are not modelled.
- BinaryExpr.ExprReread: strings and floating-point texts are non-empty and 7-bit, integers are above the minimum, and there is no list successor; empty labels are included.
- BinaryOperand.OperandRoundTrip: type and macro names stand for their ids, register numbers are above the minimum int, floating-point texts are ones the reader takes for numbers; the obsolete ctype format is not written.
- The keyword in front of a function, the options that drop dependence pragmas, and jump tables after its end.
- BinaryOper.OperRoundTrip: no sync arcs, no `popc` attribute with its completers, no vestigial opcodes. The `popc` scan interns only the first of its two fields (l_binaryio.c:851).
- BinaryInterning.SymbolTables.Build: the scan adds no `popc` attribute.
- BinaryStreams.OperReader.ReadRestFromSrc: fails on a sync section.
- BinaryStreams.OperReader.ReadOper: fails on a sync section, and does not set the processor opcode from `popc`.
- BinaryStreams.OperWriter.PrintOper: does not update `popc` and prints no sync arcs.
- BinaryStreams.OperWriter.PrintOpers: does not print parent operations.
- FunctionStreams.PrintCb: does not print parent operations, and blocks have no region.
- FunctionStreams.PrintFunction: writes neither the keyword in front nor jump tables behind.
- Parent operations: the reader model reads and sets them aside, and does not link operations to them.
- Flag words: only the flags that are printed, by their letters; bits without a letter are neither written nor read.
- Repeated ids: what reading them leaves is modelled exactly, but the condition for coming back is stated for distinct ids. Repeated block ids, and repeated operation ids in one block, never come back; for an operation id that two blocks share nothing more is stated.
- Building objects: a block's records are all read before they are linked in; linking reads no bytes and reading a record leaves only its fields, so the result is the same.
- ControlFlow.FlowGraph.Disconnect: arcs are compared without their profile weights, which the source compares for near equality.
- EmptyBlocks.RedirectBlock: no renaming of jump tables when a register jump is redirected, and no flow weights.
- The per-loop array of profiler tables, its bounds check, the output at exit, and `_PP_record_ip`.
- IterTable.SymbolTable.Add: the duplicate check comes before the contents list is touched; the source checks after, and then exits.
- CallGraph.Graph.FindNode: the mapping of a label to a function name comes before it and is not modelled.
- CallGraph.Graph.AddArc: no `_$fn` prefix, no `CALLNAME` loop for indirect calls, no arc ids, types and weights.
- Freed memory: a freed call-graph arc is recorded, not reused.
- Induction-variable information, the acyclic-code pass and the block structure of a loop body in address prediction: a body is its operations in visiting order; register operands are compared by id and ctype.
- AccSpec.Independent: the omega test and the struct-return test are inputs; the cross-iteration test repeats the same loop with another omega query.
- Def/use flags of access specifiers: no test reads them, and a merge may drop a def that a use already stands for.
- Constant folding (L_constant.c), comparison completers (l_compare.c), wrappers in l_dataflow.c, drivers, tracing and file tools: bit masking, finite tables, plumbing or I/O.
