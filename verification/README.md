# Verified models of a symbolic virtual machine

The modules here model the hard parts of a symbolic virtual machine for LLVM programs
that has been extended with threads and with pruning by a path slicer, and prove what
its design promises. One denotation, `Exprs.Eval`, gives every bit-vector expression a
value under every assignment of the symbolic arrays. The expression constructors, the
visitor, path conditions, symbolic memory, forking, merging and the builder are all
specified against it.

| part | modules |
|---|---|
| bit vectors and expressions, shared facts | `Bits`, `Exprs`, `MachineArithmetic`, `Collections` |
| canonicalising constructors | `LogicConstructors`, `LinearConstructors`, `SliceConstructors`, `Constructors`, `CanonicalForms` |
| constant-folding builder | `FoldingBuilder` |
| rewriting and path conditions | `Visitor`, `Constraints` |
| exploration as a partition of the inputs | `Forking` |
| symbolic objects | `ByteArrays`, `ByteCache`, `Memory` |
| copy on write and pointer resolution | `Ownership`, `AddressSpaces`, `Resolution` |
| branch tree, process tree, state sets | `States`, `BranchTrees`, `ProcessTrees`, `Exploration` |
| scheduling and mutexes | `Threads` |
| distances to returns and to uncovered code | `Distances`, `Uncovered` |
| call-path statistics | `CallPaths` |
| merging of states | `Merging`, `StateMerging` |

Main results:

- Adding a constraint, with its mutually recursive rewriting of the whole list,
  terminates and leaves a list satisfied by exactly the right assignments
  (`ConstraintManager.AddConstraint`). The measure counts reads and optimisation
  barriers; no constructor increases it, and every replacement decreases it.
- Every constructor means what the plain operator means (`BinCreateSound`,
  `UnCreateSound`, `ReadCreateSound`) and keeps the canonical form
  (`BinCreateCanonical`, `UnCreateCanonical`, `SelectCreateCanonical`).
- Simplification under a path condition removes everything the path condition has a value
  for, and nothing else (`SimplifyExpr`, `RewrittenChanges`, `RewrittenNormal`).
- The leaves of any run of forks partition the inputs and share the weight
  (`RunsPartition`).
- A three-layer byte cache refines a plain byte array (`ObjectState`), with loads that
  see the last store (`LoadAfterStore`, `LoadBesideStore`).
- Copy on write isolates address spaces, although reads change shared caches
  (`AddressSpace.Write`, `AddressSpace.Read`).
- Pointer resolution finds all objects a pointer may hit, and no others (`Resolve`).
- Pruning removes exactly the intended states (`FindPrunedStates`,
  `SlicingAndPruneStates`), and trees and sets agree after every step.
- Mutex queues are in order in every run, ownership is first come first served, and the
  scheduler is fair (`RunInv`, `Fifo`, `RoundRobin`).
- Both in-place distance iterations compute exact interprocedural distances
  (`MinDistToReturn`, `MinDistToUncovered`), and recursion-collapsed call paths count
  nothing twice (`GetSummaryStatistics`).
- A successful merge is the union of the two states (`ExecutionState.Merge`).

Conventions:

- An ill-formed expression has width 0. Lemmas about constructors ask for the widths
  that the source asserts.
- Update lists are sequences, the most recent write first. Expressions are equal if they
  have the same structure; hash values have no meaning in the model (the one at
  `klee/lib/Expr/Expr.cpp:201-204` computes a value that it does not store).
- The solver is a function that answers exactly. The slicer's list of branches is an
  arbitrary input.
- Byte order and random bits are parameters.
- An object state has a ghost `cache`, a value that its buffers and masks encode. An
  address space works in a ghost `World` of all spaces, objects and buffers.
- `Forking`, `States`, `Threads` and `StateMerging` each have the part of the execution
  state that they are about.
- Trees on the heap carry a ghost map from paths to nodes.

Where the comments in the sources and their code disagree, the model follows the code:
two rules at `klee/lib/Expr/ExprBuilder.cpp:798-800` and `:851-853` subtract where their
comments add. Of the canonical form documented at `klee/include/klee/Expr.h:43-74`, two
rules do not hold of the constructors as stated. A constant operand of a conjunction or
disjunction is on the right, not on the left (`ConstantsOnTheRight`). Chains are not
turned to lean to the right (`ChainsAsGiven`). Reads at constant positions and
optimisation barriers may have constant arguments only.

## Model

| member | source | states |
|---|---|---|
| `Exprs.EvalRange` | klee/lib/Expr/Expr.cpp:347-473 | Every well-formed expression denotes a value of its width, for all widths, update lists and assignments |
| `MachineArithmetic.SignedRange` | klee/lib/Expr/Expr.cpp:369-371 | The signed reading of a w-bit value lies between minus two to the w minus 1 and two to the w minus 1, and is congruent to the value |
| `MachineArithmetic.SignedUnique` | klee/lib/Expr/Expr.cpp:369-371 | No other number of that range is congruent to it |
| `MachineArithmetic.SignExtendKeeps` | klee/lib/Expr/Expr.cpp:369-371 | Sign extension keeps the signed value, for all widths |
| `MachineArithmetic.SignedOrder` | klee/lib/Expr/Expr.cpp:457-471 | The signed comparisons are the unsigned ones after flipping the sign bit |
| `MachineArithmetic.Truncates` | klee/lib/Expr/Expr.cpp:389-403 | Quotient and remainder of the division that rounds toward zero: dividend is divisor times quotient plus remainder, the remainder is smaller than the divisor and has the sign of the dividend |
| `MachineArithmetic.UnsignedDivision` | klee/lib/Expr/Expr.cpp:389-403 | Unsigned quotient and remainder are those of the numbers |
| `MachineArithmetic.SignedDivision` | klee/lib/Expr/Expr.cpp:389-403 | The signed remainder is exact; the signed quotient is exact if and only if it is not the least value divided by minus one |
| `MachineArithmetic.ShiftLeftDoubles` | klee/lib/Expr/Expr.cpp:417-427 | Shifting left by one more place doubles |
| `MachineArithmetic.ShiftRightHalves` | klee/lib/Expr/Expr.cpp:417-427 | Shifting right by one more place halves, rounding down |
| `MachineArithmetic.ArithmeticShiftHalves` | klee/lib/Expr/Expr.cpp:417-427 | Shifting arithmetically right by one more place halves the signed value, rounding down |
| `MachineArithmetic.BitwiseBits` | klee/lib/Expr/Expr.cpp:405-415 | Each bit of a bitwise operation is the Boolean operation on the bits of the operands |
| `MachineArithmetic.ComplementSum` | klee/lib/Expr/Expr.cpp:429-431 | A value and its complement sum to all ones |
| `MachineArithmetic.ExtractedBits` | klee/lib/Expr/Expr.cpp:361-363 | Bit k of an extract is bit offset plus k of the source |
| `MachineArithmetic.ConcatenatedBits` | klee/lib/Expr/Expr.cpp:347-359 | The low part has the low bits of a concatenation, the high part the others |
| `MachineArithmetic.ModularArithmetic` | klee/lib/Expr/Expr.cpp:373-387 | Sums, differences and products are exact modulo two to the width |
| `LinearConstructors.AddCreate` | klee/lib/Expr/Expr.cpp:680-726 | Terminates for every pair of operands, by total size and then by the number of non-constant operands; keeps the width and adds at most one node |
| `LinearConstructors.AddCreateSound` | klee/lib/Expr/Expr.cpp:680-726 | The constructed sum has the value of the plain sum modulo two to the width, under every assignment, through every regrouping rule and the Boolean case |
| `LinearConstructors.SubCreate` | klee/lib/Expr/Expr.cpp:728-776 | Terminates together with `AddCreate`; same width and size bound |
| `LinearConstructors.SubCreateSound` | klee/lib/Expr/Expr.cpp:728-776 | The constructed difference has the value of the plain difference under every assignment |
| `LinearConstructors.AddCreateLinear` | klee/include/klee/Expr.h:62-72 | Above width one, operands in canonical linear form give a sum in that form: at most one constant in the whole chain, on the left of its root |
| `LinearConstructors.SubCreateLinear` | klee/include/klee/Expr.h:62-72 | The same for differences |
| `LinearConstructors.AddCreateLight` | klee/lib/Expr/Expr.cpp:680-726 | A sum never weighs more than its operands, where weight counts reads and optimisation barriers, although node counts can grow |
| `LinearConstructors.SubCreateLight` | klee/lib/Expr/Expr.cpp:728-776 | The same for differences |
| `LogicConstructors.AndCreateSound` | klee/lib/Expr/Expr.cpp:804-818 | Conjunction has the bitwise value of the plain node, also with a constant on either side |
| `LogicConstructors.OrCreateSound` | klee/lib/Expr/Expr.cpp:820-834 | Disjunction likewise |
| `LogicConstructors.XorCreateSound` | klee/lib/Expr/Expr.cpp:836-851 | Exclusive or likewise; with the constant one on Booleans it becomes a negation |
| `LogicConstructors.EqCreateSound` | klee/lib/Expr/Expr.cpp:954-975 | Equality is 1 exactly when both operands have the same value, whatever rules fired |
| `LogicConstructors.EqPartialRSound` | klee/lib/Expr/Expr.cpp:1009-1084 | The rules for a constant on the left keep the value: double negation, De Morgan, extensions, constants moved across sums and differences; the recursion through them terminates |
| `LogicConstructors.EqThroughExtendSound` | klee/lib/Expr/Expr.cpp:1037-1062 | A sign or zero extension equals a constant exactly when the constant is the extension of its own truncation and the truncation matches; otherwise the comparison is false |
| `LogicConstructors.EqCreateLight` | klee/lib/Expr/Expr.cpp:1009-1084 | No equality rule increases the weight, De Morgan included |
| `LogicConstructors.IsZeroSound` | klee/lib/Expr/Expr.cpp:298-300 | Negation of a Boolean, and the zero test in general |
| `LogicConstructors.CompareCreateSound` | klee/lib/Expr/Expr.cpp:1090-1146 | All ten comparisons have the value of the plain signed or unsigned comparison, Booleans included |
| `LogicConstructors.SelectCreateSound` | klee/lib/Expr/Expr.cpp:521-548 | A selection has the value of the chosen arm, also where it turns into a conjunction or disjunction |
| `SliceConstructors.ConcatCreateSound` | klee/lib/Expr/Expr.cpp:552-573 | Concatenation keeps its value, also where two adjacent extracts are merged |
| `SliceConstructors.ConcatCreateN` | klee/lib/Expr/Expr.cpp:576-585 | The loop over the kids joins any number of them, the last one lowest |
| `SliceConstructors.ExtractCreateSound` | klee/lib/Expr/Expr.cpp:604-630 | An extract keeps its value, also of a constant, which the source shifts arithmetically |
| `SliceConstructors.ExtractFromConcatSound` | klee/lib/Expr/Expr.cpp:613-626 | An extract of a concatenation taken from the left part, from the right part, or split over both keeps its value; the mutual recursion with concatenation terminates |
| `SliceConstructors.ExtendCreateSound` | klee/lib/Expr/Expr.cpp:644-668 | Extending to a smaller width cuts, to the same width does nothing, otherwise extends by zeros or by the sign |
| `Constructors.MulCreateSound` | klee/lib/Expr/Expr.cpp:778-802 | Products keep their value, also where a Boolean product becomes a conjunction |
| `Constructors.PlainCreateSound` | klee/lib/Expr/Expr.cpp:853-907 | Divisions, remainders and shifts keep their value, also where a Boolean quotient or shift becomes a simpler expression |
| `Constructors.BinCreateTyped` | klee/lib/Expr/Expr.cpp:909-967 | Every binary constructor returns an expression of the width of the operation |
| `Constructors.BinCreateSound` | klee/lib/Expr/Expr.cpp:909-967 | Every binary constructor returns an expression with the value of the plain operator under every assignment |
| `Constructors.BinCreateLight` | klee/lib/Expr/Expr.cpp:909-967 | No binary constructor increases the weight |
| `Constructors.UnCreateSound` | klee/lib/Expr/Expr.cpp:604-668 | The same for the unary constructors |
| `Constructors.ReadCreateLoop` | klee/lib/Expr/Expr.cpp:493-519 | The loop down the update list computes `ReadCreate` |
| `Constructors.ReadCreateSound` | klee/lib/Expr/Expr.cpp:493-519 | Skipping writes provably elsewhere, and taking the value of a write provably here, keeps the value of the read |
| `Constructors.RollBackFinds` | klee/lib/Expr/Expr.cpp:493-519 | Among writes at constant positions a read at a constant position finds the most recent one there, and none if there is none |
| `Constructors.RebuildSound` | klee/lib/Expr/ExprVisitor.cpp:107-111 | Rebuilding a node over operands of equal widths and values keeps its value |
| `Constructors.RebuildLight` | klee/lib/Expr/ExprVisitor.cpp:107-111 | Rebuilding a node weighs no more than the node itself and its new operands |
| `CanonicalForms.BinCreateCanonical` | klee/include/klee/Expr.h:43-74 | From canonical operands every binary constructor makes a canonical expression: no operation on constants alone, none of the five comparisons that have a mirror image, only logical operations on Booleans and no constant but in a negation, linear formulas with one constant at the left of the root, no superfluous constant, and equalities, concatenations and extracts in their simplest form, at every node |
| `CanonicalForms.UnCreateCanonical` | klee/include/klee/Expr.h:43-74 | The same for the unary constructors |
| `CanonicalForms.SelectCreateCanonical` | klee/include/klee/Expr.h:43-74 | The same for selections |
| `CanonicalForms.ReadCreateCanonical` | klee/include/klee/Expr.h:43-74 | The same for reads, through their update lists |
| `CanonicalForms.EqCreateCanonical` | klee/lib/Expr/Expr.cpp:1009-1084 | The same for equality: every rule that applies is applied |
| `CanonicalForms.RebuildCanonical` | klee/lib/Expr/ExprVisitor.cpp:107-111 | Rebuilding a canonical node over canonical operands gives a canonical expression |
| `CanonicalForms.BarrierStays` | klee/lib/Expr/Expr.cpp:475-477 | An optimisation barrier is never removed or folded |
| `CanonicalForms.ConstantsOnTheLeft` | klee/include/klee/Expr.h:62-69 | The documented rule that constants are on the left holds for sums, differences, products, exclusive or and equality |
| `CanonicalForms.ConstantsOnTheRight` | klee/lib/Expr/Expr.cpp:804-834 | It fails for conjunction and disjunction: exactly the constants that are not absorbed end up on the right |
| `CanonicalForms.ChainsAsGiven` | klee/lib/Expr/Expr.cpp:703-726 | The documented rule that chains lean to the right fails: sums and differences of terms without constants are left as given |
| `Visitor.Rewritten` | klee/lib/Expr/ExprVisitor.cpp:40-121 | The rewrite, which visits a rebuilt expression again, terminates for every replacement of expressions by constants; a changed result is strictly lighter. What it replaces is said by the lemmas that follow |
| `Visitor.RewrittenSound` | klee/lib/Expr/ExprVisitor.cpp:40-121 | Rewriting keeps the value under every assignment under which the replacements are true |
| `Visitor.RewrittenChanges` | klee/lib/Expr/ExprVisitor.cpp:40-121 | An expression is changed if and only if something to be replaced occurs in it, at any depth |
| `Visitor.RewrittenKey` | klee/lib/Expr/Constraints.cpp:20-62 | Something to be replaced becomes its constant, unless a part of it is replaced first |
| `Visitor.RewrittenRoot` | klee/lib/Expr/Constraints.cpp:20-62 | The result is never itself something to be replaced |
| `Visitor.RewrittenNormal` | klee/lib/Expr/Constraints.cpp:44-62 | With the visitor that visits again, nothing to be replaced is left anywhere in the result, although rebuilding makes new parts |
| `Visitor.RewrittenCanonical` | klee/lib/Expr/ExprVisitor.cpp:40-121 | Rewriting keeps the canonical form |
| `Visitor.ExprVisitor.constructor` | klee/lib/Expr/ExprVisitor.cpp:24-38 | A new visitor has an empty, hence correct, memo table |
| `Visitor.ExprVisitor.Visit` | klee/lib/Expr/ExprVisitor.cpp:24-38 | With the memo table the result is that of the rewrite without it, and the table stays correct |
| `Visitor.ExprVisitor.VisitActual` | klee/lib/Expr/ExprVisitor.cpp:40-121 | The same for one node: replacement on the way down, kid loop, rebuild, second visit, replacement on the way up |
| `Visitor.ExprVisitor.VisitKids` | klee/lib/Expr/ExprVisitor.cpp:98-106 | The kid loop returns the rewritten kids and whether any of them changed |
| `Constraints.ConstraintManager.SimplifyExpr` | klee/lib/Expr/Constraints.cpp:89-112 | Under every assignment that satisfies the path condition the result has the same value. The result differs from the expression if and only if something that a constraint gives a value to occurs in it; nothing of the kind occurs in the result |
| `Constraints.ConstraintManager.RewriteConstraints` | klee/lib/Expr/Constraints.cpp:64-83 | Where the replacement holds, the list says the same as before. It changes if and only if what is replaced occurs in it, and is strictly lighter then. It fails only if the list contradicts the replacement. No conjunction or constant appears, and canonical lists stay canonical |
| `Constraints.ConstraintManager.AddConstraintInternal` | klee/lib/Expr/Constraints.cpp:114-151 | The recursion with `RewriteConstraints` terminates. The new list holds exactly where the old one and the new constraint do, or else the two contradict each other. Conjunctions are split, a constraint goes to the end of the list, and an equality that gives a value to something in the list makes the list lighter |
| `Constraints.ConstraintManager.AddConstraint` | klee/lib/Expr/Constraints.cpp:153-156 | The new list is satisfied by exactly the assignments that satisfy the old list and the constraint; if there is one, the assertion against a false constraint is not reached. A constraint that can be simplified is added in lighter form; no conjunction or constant appears; canonical lists stay canonical |
| `Forking.RunsPartition` | klee/lib/Core/Executor.cpp:835-936 | After any run of forks the path conditions of all leaves are satisfiable, pairwise disjoint and together cover exactly the initial ones, and the weights sum to the initial weight |
| `Forking.ForkKeepsPartition` | klee/lib/Core/Executor.cpp:835-936 | One fork keeps the partition |
| `Forking.ForkKeepsWeight` | klee/lib/Core/ExecutionState.cpp:155-165 | One fork conserves the total weight |
| `Forking.Explorer.Fork` | klee/lib/Core/Executor.cpp:835-936 | A decided condition changes nothing. If both outcomes are possible, it is one fork step; both results are null if and only if the depth bound is reached, and then neither state is explored further; otherwise each side is explored under the old condition and its own |
| `Forking.Explorer.ForkBoth` | klee/lib/Core/Executor.cpp:852-925 | The two new path conditions split the old one; the weight is shared |
| `Forking.ExecutionState.Branch` | klee/lib/Core/ExecutionState.cpp:155-165 | The copy has the same path condition and the other half of the weight; both are one deeper |
| `Forking.ExecutionState.AddConstraint` | klee/lib/Core/Executor.cpp:939-970 | For a condition that is possible, neither assertion fails and the path condition is conjoined with it |
| `ByteCache.PutConcreteOk` | klee/lib/Core/Memory.cpp:458-465 | Storing a number in the cache writes that byte and no other, and keeps the cache invariants |
| `ByteCache.PutSymbolicOk` | klee/lib/Core/Memory.cpp:467-477 | The same for an expression |
| `ByteCache.FlushOk` | klee/lib/Core/Memory.cpp:328-376 | Moving a cached byte to the update list, with or without keeping it cached, changes no byte under any assignment |
| `ByteCache.ExtendOk` | klee/lib/Core/Memory.cpp:479-494 | When nothing is cached, a write to the update list writes one byte wherever its index points |
| `ByteCache.RootedOk` | klee/lib/Core/Memory.cpp:223-277 | Replacing the oldest constant writes by a constant array changes no readable byte |
| `ByteArrays.ReadOverWrite` | klee/lib/Core/Memory.cpp:525-541 | Reference: bytes written in either order and read back give the whole value |
| `Memory.ObjectState.constructor` | klee/lib/Core/Memory.cpp:107-129 | Every byte of a new object is concrete and is what its buffer holds |
| `Memory.ObjectState.Symbolic` | klee/lib/Core/Memory.cpp:132-150 | An object over an array has the bytes of that array |
| `Memory.ObjectState.Copy` | klee/lib/Core/Memory.cpp:152-196 | A copy has the same bytes and caches and shares no buffer |
| `Memory.ObjectState.GetUpdates` | klee/lib/Core/Memory.cpp:223-277 | Creating the constant array lazily changes no byte; the returned list is the one stored |
| `Memory.AbsorbConstants` | klee/lib/Core/Memory.cpp:239-258 | The loop runs the longest series of oldest constant writes into a zeroed array |
| `Memory.ObjectState.MakeSymbolic` | klee/lib/Core/Memory.cpp:288-298 | Afterwards every byte is read from the update list |
| `Memory.ObjectState.FlushForRead` | klee/lib/Core/Memory.cpp:328-346 | Every byte is on the update list and still cached as it was; the meaning is the same under every assignment |
| `Memory.ObjectState.FlushForWrite` | klee/lib/Core/Memory.cpp:348-376 | The same, and nothing is cached any more |
| `Memory.ObjectState.MarkByteConcrete` | klee/lib/Core/Memory.cpp:390-393 | Sets one bit of the mask, if there is a mask |
| `Memory.ObjectState.MarkByteSymbolic` | klee/lib/Core/Memory.cpp:395-399 | Clears one bit, creating the mask if needed |
| `Memory.ObjectState.MarkByteUnflushed` | klee/lib/Core/Memory.cpp:401-404 | Sets one bit, if there is a mask |
| `Memory.ObjectState.MarkByteFlushed` | klee/lib/Core/Memory.cpp:406-412 | Clears one bit; without a mask the new one marks all bytes as flushed |
| `Memory.ObjectState.SetKnownSymbolic` | klee/lib/Core/Memory.cpp:414-424 | Records or forgets the cached expression of one byte |
| `Memory.ObjectState.Read8` | klee/lib/Core/Memory.cpp:428-439 | The expression has the value of that byte under every assignment; a concrete byte gives its number and a cached expression is given as it is; the caches stay |
| `Memory.ObjectState.Read8At` | klee/lib/Core/Memory.cpp:441-456 | The byte at a symbolic offset, wherever it is in bounds; bytes stay cached |
| `Memory.ObjectState.Write8` | klee/lib/Core/Memory.cpp:458-465 | Changes exactly that byte of the byte array the object stands for, which is concrete afterwards |
| `Memory.ObjectState.Write8Value` | klee/lib/Core/Memory.cpp:467-477 | The same for an expression; a constant makes the byte concrete, anything else is cached |
| `Memory.ObjectState.Write8At` | klee/lib/Core/Memory.cpp:479-494 | The same for a symbolic offset |
| `Memory.ObjectState.ReadAt` | klee/lib/Core/Memory.cpp:525-541 | A read at a constant offset has the value of the bytes there, one bit or any number of bytes, both byte orders; concrete bytes give a constant |
| `Memory.ObjectState.Load` | klee/lib/Core/Memory.cpp:498-523 | The same for any offset, wherever the access is in bounds |
| `Memory.ObjectState.WriteConstant` | klee/lib/Core/Memory.cpp:603-625 | The fast paths for constants write the bytes of the value, all of them concrete |
| `Memory.ObjectState.WriteAt` | klee/lib/Core/Memory.cpp:570-601 | A write at a constant offset stores the value, on every path; bytes of a constant are concrete afterwards |
| `Memory.ObjectState.Store` | klee/lib/Core/Memory.cpp:543-568 | A write at any offset stores the value wherever the access is in bounds |
| `Memory.StoredLittleEndian` | klee/lib/Core/Memory.cpp:543-625 | A little-endian store puts byte i of the value at the offset plus i |
| `Memory.StoredBigEndian` | klee/lib/Core/Memory.cpp:543-625 | A big-endian store of n bytes puts byte i at the offset plus n minus 1 minus i |
| `Memory.LoadedLittleEndian` | klee/lib/Core/Memory.cpp:498-541 | Byte i of a little-endian load is the byte at the offset plus i |
| `Memory.LoadedBigEndian` | klee/lib/Core/Memory.cpp:498-541 | Byte i of a big-endian load of n bytes is the byte at the offset plus n minus 1 minus i |
| `Memory.BoolAccess` | klee/lib/Core/Memory.cpp:506-508 | A Boolean is a byte 0 or 1 in memory; its load is the lowest bit |
| `Memory.LoadAfterStore` | klee/lib/Core/Memory.cpp:498-625 | A load of the place and width of a store gives the stored value, for constant and symbolic offsets and both byte orders |
| `Memory.LoadBesideStore` | klee/lib/Core/Memory.cpp:498-625 | A store changes no load of a disjoint range |
| `Memory.SumNotConstant` | klee/lib/Core/Memory.cpp:510-520 | Adding a byte number to a canonical symbolic offset stays symbolic, so the byte accesses of the loop are symbolic too |
| `Ownership.Exclusive` | klee/lib/Core/AddressSpace.h:36-57 | An object owned at the current key of a space is bound in no other place of any space |
| `Ownership.StampedCopy` | klee/lib/Core/AddressSpace.h:54-57 | Copying a space keeps the ownership invariant: owners are at most the keys, and shared objects are behind both |
| `Ownership.StampedBind` | klee/lib/Core/AddressSpace.cpp:22-26 | Binding a new object keeps it |
| `Ownership.StampedUnbind` | klee/lib/Core/AddressSpace.cpp:28-30 | Unbinding keeps it |
| `AddressSpaces.AddressSpace.constructor` | klee/lib/Core/AddressSpace.h:54-55 | A new space is empty and isolated from all others |
| `AddressSpaces.AddressSpace.Copy` | klee/lib/Core/AddressSpace.h:56-56 | A copy binds the same objects; both spaces get the next key and stay isolated |
| `AddressSpaces.AddressSpace.BindObject` | klee/lib/Core/AddressSpace.cpp:22-26 | Replaces one binding and takes ownership |
| `AddressSpaces.AddressSpace.UnbindObject` | klee/lib/Core/AddressSpace.cpp:28-30 | Removes one binding |
| `AddressSpaces.AddressSpace.GetWriteable` | klee/lib/Core/AddressSpace.cpp:38-50 | The returned object is owned, bound and of the same contents: the bound one if it was owned, else a fresh copy; no space changes its meaning |
| `AddressSpaces.AddressSpace.Write` | klee/lib/Core/AddressSpace.cpp:38-50 | A write through `GetWriteable` changes one object of one space; every other space means the same, caches included |
| `AddressSpaces.AddressSpace.Read` | klee/lib/Core/Memory.cpp:328-346 | Reads that flush caches of shared objects change the meaning of no object in any space |
| `Resolution.BoundsCheckSound` | klee/lib/Core/Memory.h:129-146 | The one unsigned comparison holds exactly for addresses in bounds; an empty object is hit at its address only |
| `Resolution.BoundsCheckAccessSound` | klee/lib/Core/Memory.h:147-155 | The comparison for an access holds exactly if all of its bytes are in bounds |
| `Resolution.BoundsQueries` | klee/lib/Core/AddressSpace.cpp:217-235 | The queries put to the solver mean: may be, and must be, in bounds |
| `Resolution.BaseQueries` | klee/lib/Core/AddressSpace.cpp:238-258 | The queries that end the search mean: always at or above, and always below, the base |
| `Resolution.ResolveAddress` | klee/lib/Core/AddressSpace.cpp:54-69 | For a concrete address the nearest object at or below it is the only candidate, so exactly the object in bounds is found |
| `Resolution.ResolveOne` | klee/lib/Core/AddressSpace.cpp:71-159 | Returns an object the pointer may hit, and fails only if there is none, for all path conditions and layouts; an object hit by the example value comes first |
| `Resolution.OneBackwards` | klee/lib/Core/AddressSpace.cpp:106-128 | The backward search misses nothing below, although it ends early |
| `Resolution.OneForwards` | klee/lib/Core/AddressSpace.cpp:130-154 | The forward search misses nothing above |
| `Resolution.Resolve` | klee/lib/Core/AddressSpace.cpp:161-284 | Lists without duplicates the objects the pointer may hit, all of them unless a cap above one is reached; the list never exceeds such a cap, and is called incomplete if and only if it has reached it |
| `Resolution.SearchBackwards` | klee/lib/Core/AddressSpace.cpp:207-245 | Finds exactly the hits below the start, or all hits at once, or as many as the cap |
| `Resolution.SearchForwards` | klee/lib/Core/AddressSpace.cpp:246-280 | Completes the list with the hits from the start on |
| `BranchTrees.BranchTree.constructor` | klee/lib/Core/BranchTree.cpp:56-58 | The empty tree |
| `BranchTrees.BranchTree.AddBranch` | klee/lib/Core/BranchTree.cpp:180-213 | A branch takes the place of the state that met it and has the two states as its sides; links in both directions stay consistent, nothing else moves |
| `BranchTrees.BranchTree.RemoveState` | klee/lib/Core/BranchTree.cpp:163-178 | One state leaves its slot; nodes and all other slots stay |
| `BranchTrees.BranchTree.FindChildStates` | klee/lib/Core/BranchTree.cpp:64-87 | Finds exactly the states attached beneath the node |
| `BranchTrees.BranchTree.FindPrunedStates` | klee/lib/Core/BranchTree.cpp:90-161 | Adds exactly the states beneath the top of the nearest run of ancestors with the index, minus those beneath the path side of the run's lowest node; the current state is never added and the abort is not reached |
| `BranchTrees.BranchTree.OtherSide` | klee/lib/Core/BranchTree.cpp:105-134 | The states on the side of an ancestor that the walk did not come from |
| `BranchTrees.Pruned` | klee/lib/Core/BranchTree.cpp:90-161 | Reference set of the states to prune; it never has the state itself |
| `BranchTrees.WiredAdded` | klee/lib/Core/BranchTree.cpp:180-213 | Adding a branch keeps every state in exactly one slot and every pointer in agreement with it |
| `BranchTrees.WiredRemoved` | klee/lib/Core/BranchTree.cpp:163-178 | So does removing a state |
| `ProcessTrees.PTree.constructor` | klee/lib/Core/PTree.cpp:22-23 | One leaf, the initial state |
| `ProcessTrees.PTree.Split` | klee/lib/Core/PTree.cpp:27-36 | The leaf becomes an inner node over two leaves, the false state on the left; data is at exactly the childless nodes |
| `ProcessTrees.PTree.Remove` | klee/lib/Core/PTree.cpp:38-52 | The upward loop removes the leaf and every ancestor left without children, and no other state |
| `ProcessTrees.PTree.SelectState` | klee/lib/Core/Searcher.cpp:218-238 | For every sequence of random words the walk down terminates at a leaf that holds a live state, going left at the k-th proper fork if and only if the k-th random bit is set |
| `ProcessTrees.NextBit` | klee/lib/Core/Searcher.cpp:228-233 | The bits of each word are used from the highest down, and a new word is drawn after the last |
| `Exploration.Executor.constructor` | klee/lib/Core/Executor.cpp:3841-3841 | The initial state is the only live one |
| `Exploration.Executor.Fork` | klee/lib/Core/Executor.cpp:855-906 | Adds one state; both trees hold exactly the live states again, and the branch tree has a branch with the given index in the place of the forking state |
| `Exploration.Executor.TerminateState` | klee/lib/Core/Executor.cpp:2955-2984 | A state not yet known to the searcher goes at once, any other is put on the list to remove; trees and sets agree |
| `Exploration.Executor.TerminateStateAtOnce` | klee/lib/Core/Executor.cpp:4030-4065 | A state goes from all sets and both trees |
| `Exploration.Executor.UpdateStates` | klee/lib/Core/Executor.cpp:2571-2612 | Takes over the added states and drops the removed ones, whose membership assertion cannot fail; does nothing for a discarded current state |
| `Exploration.Executor.FindAllPruned` | klee/lib/Core/Executor.cpp:3988-3995 | The union of what the branch tree gives for each index |
| `Exploration.AllPrunedUnion` | klee/lib/Core/Executor.cpp:3988-3995 | A state is pruned for a list of indices if and only if it is for one of them |
| `Exploration.Executor.Prune` | klee/lib/Core/Executor.cpp:3997-4004 | Marks all pruned states and, unless only marking, removes exactly these |
| `Exploration.Executor.SlicingAndPruneStates` | klee/lib/Core/Executor.cpp:3983-4006 | Whatever the slicer returns, exactly the computed states are pruned and marked, the current state is not among them, no other mark changes, and trees and sets agree |
| `Exploration.Executor.SelectState` | klee/lib/Core/Searcher.cpp:218-238 | Random path selection ends at a state in `states` or `addedStates` as long as there is one |
| `Threads.StepInv` | klee/lib/Core/SpecialFunctionHandler.cpp:883-1035 | Every scheduling step keeps: queues without duplicates, pairwise disjoint, together the blocked threads; a mutex with waiters is held by a thread outside its queue |
| `Threads.RunInv` | klee/lib/Core/SpecialFunctionHandler.cpp:883-1035 | So these hold at every point of every run from a state that has them, such as the initial one |
| `Threads.QueueStep` | klee/lib/Core/SpecialFunctionHandler.cpp:921-950 | A queue grows at its end or loses its head, which then holds the mutex |
| `Threads.Fifo` | klee/lib/Core/SpecialFunctionHandler.cpp:921-950 | Over any run, a thread ahead in a queue gets the mutex before those behind it, who still wait then |
| `Threads.CreateOutcome` | klee/lib/Core/ExecutionState.cpp:434-450 | The new thread has a number that no thread had, is added and can run; nothing changes for the others |
| `Threads.InitOutcome` | klee/lib/Core/SpecialFunctionHandler.cpp:883-897 | Exactly when init succeeds or returns EBUSY; a new mutex is free and without waiters |
| `Threads.LockOutcome` | klee/lib/Core/SpecialFunctionHandler.cpp:952-977 | Exactly when lock succeeds or returns EINVAL or EDEADLK; after success the caller holds the mutex if it was free, and else is blocked at the end of its queue; no other mutex or thread is touched |
| `Threads.UnlockOutcome` | klee/lib/Core/SpecialFunctionHandler.cpp:979-1007 | Exactly when unlock succeeds or returns EINVAL or EPERM; the first waiter gets the mutex and is unblocked, without waiters it is free; nothing else is touched |
| `Threads.TrylockOutcome` | klee/lib/Core/SpecialFunctionHandler.cpp:1009-1034 | Exactly when trylock succeeds or returns EINVAL or EBUSY; it never blocks and touches nothing else |
| `Threads.DestroyOutcome` | klee/lib/Core/SpecialFunctionHandler.cpp:898-919 | Exactly when destroy succeeds or returns EINVAL or EBUSY; it strands no waiter and touches nothing else |
| `Threads.RoundRobin` | klee/lib/Core/Executor.cpp:2676-2717 | While the set of n runnable threads stays the same, each of them is picked exactly once in every n consecutive steps |
| `Threads.ThreadedState.constructor` | klee/lib/Core/ExecutionState.cpp:66-85 | One thread, no mutex; the queue invariant holds |
| `Threads.ThreadedState.NextThread` | klee/lib/Core/Executor.cpp:2681-2705 | The scan, in any order, finds the least runnable thread above the last one, else the least of all, else none |
| `Threads.ThreadedState.RunNextInstruction` | klee/lib/Core/Executor.cpp:2676-2717 | One step of the transition system, and it records the thread that ran |
| `Threads.ThreadedState.CreateThread` | klee/lib/Core/ExecutionState.cpp:434-450 | A new thread with a fresh number, runnable |
| `Threads.ThreadedState.MutexInit` | klee/lib/Core/SpecialFunctionHandler.cpp:883-896 | The effect and return code of the transition system |
| `Threads.ThreadedState.MutexDestroy` | klee/lib/Core/SpecialFunctionHandler.cpp:898-919 | The same |
| `Threads.ThreadedState.DoMutexLock` | klee/lib/Core/SpecialFunctionHandler.cpp:921-933 | Takes a free mutex, else queues and blocks the thread |
| `Threads.ThreadedState.DoMutexUnlock` | klee/lib/Core/SpecialFunctionHandler.cpp:935-950 | Frees the mutex or hands it to the first waiter, who is unblocked |
| `Threads.ThreadedState.MutexLock` | klee/lib/Core/SpecialFunctionHandler.cpp:952-977 | The effect and return code of the transition system |
| `Threads.ThreadedState.MutexUnlock` | klee/lib/Core/SpecialFunctionHandler.cpp:979-1007 | The same |
| `Threads.ThreadedState.MutexTrylock` | klee/lib/Core/SpecialFunctionHandler.cpp:1009-1034 | The same |
| `Distances.MinDistToReturn` | klee/lib/Core/StatsTracker.cpp:665-751 | The in-place iteration terminates; each distance is 0 exactly if no return is reachable, else the least cost of an interprocedural walk to a return, recursion included |
| `Distances.SettledExact` | klee/lib/Core/StatsTracker.cpp:696-751 | When no relaxation changes anything, the tables are exact |
| `Distances.WalkBound` | klee/lib/Core/StatsTracker.cpp:696-751 | Then no walk, however nested, is cheaper than what was found |
| `Distances.RelaxedKnown` | klee/lib/Core/StatsTracker.cpp:720-748 | A relaxation only ever enters costs of real walks |
| `Distances.RelaxedProgress` | klee/lib/Core/StatsTracker.cpp:720-748 | Every change reaches something new or shortens a distance |
| `Distances.Relax` | klee/lib/Core/StatsTracker.cpp:702-749 | One instruction relaxed, its function's shortest path included: sound, and either nothing changes or there is progress |
| `Distances.Sweep` | klee/lib/Core/StatsTracker.cpp:699-750 | One pass over all instructions: if it reports no change, everything is settled |
| `Uncovered.MinDistToUncovered` | klee/lib/Core/StatsTracker.cpp:754-831 | The second iteration terminates; each distance is 0 exactly if no uncovered instruction is reachable, else the least cost of reaching one, into callees or past calls |
| `Uncovered.HuntSettledExact` | klee/lib/Core/StatsTracker.cpp:774-831 | When nothing changes, the distances are exact |
| `Uncovered.HuntBound` | klee/lib/Core/StatsTracker.cpp:774-831 | Then no way to an uncovered instruction is cheaper |
| `Uncovered.RelaxedHunts` | klee/lib/Core/StatsTracker.cpp:780-829 | A relaxation enters only costs of real ways, and makes progress |
| `Uncovered.RelaxHunt` | klee/lib/Core/StatsTracker.cpp:780-829 | One instruction relaxed |
| `Uncovered.SweepHunts` | klee/lib/Core/StatsTracker.cpp:777-830 | One pass |
| `CallPaths.CallPathManager.constructor` | klee/lib/Core/CallPathManager.cpp:46-47 | The tree of the root alone |
| `CallPaths.CallPathManager.FindCaller` | klee/lib/Core/CallPathManager.cpp:78-80 | The upward loop finds the caller with the label if there is one on the chain |
| `CallPaths.CallPathManager.ComputeCallPath` | klee/lib/Core/CallPathManager.cpp:75-85 | A label on the chain of callers gives that caller, any other a new node at the end of the list; no label ever repeats on a chain, and parents come before children |
| `CallPaths.CallPathManager.GetCallPath` | klee/lib/Core/CallPathManager.cpp:87-102 | The same through the table of children: a second call with the same caller and label gives the same node, no two children of a node share a label, and only a new label adds a node |
| `CallPaths.CallPathManager.Enter` | klee/lib/Core/CallPathManager.cpp:94-98 | Entering a node in the table of its caller keeps the table correct and every node listed under its label |
| `CallPaths.CallPathManager.GetSummaryStatistics` | klee/lib/Core/CallPathManager.cpp:55-72 | Each label gets the sum of the statistics of all nodes at and beneath nodes with the label, each node once, and the sum of the counts of these nodes; other labels get no entry |
| `CallPaths.CallPathManager.PassOn` | klee/lib/Core/CallPathManager.cpp:63-66 | When it is a node's turn, it has the sum over everything beneath it |
| `CallPaths.GatheredAll` | klee/lib/Core/CallPathManager.cpp:62-71 | Because parents precede children, the reverse pass has gathered all nodes beneath a node before it reaches it |
| `CallPaths.GatheredParent` | klee/lib/Core/CallPathManager.cpp:62-71 | Passing on adds nothing twice |
| `CallPaths.LabelledMore` | klee/lib/Core/CallPathManager.cpp:68-70 | Under recursion too, nodes beneath two nodes with the same label are disjoint |
| `Merging.CompareThreads` | klee/lib/Core/ExecutionState.cpp:227-255 | True exactly if both states have the same threads at the same instructions with stacks that match frame by frame |
| `Merging.CompareStacks` | klee/lib/Core/ExecutionState.cpp:242-254 | The same for two stacks walked at once |
| `Merging.Conjunction` | klee/lib/Core/ExecutionState.cpp:333-340 | The expression built in any order holds exactly where all constraints of the suffix do |
| `Merging.SelectorSides` | klee/lib/Core/ExecutionState.cpp:331-340 | For disjoint path conditions the selector holds under all inputs of the first state and under none of the second |
| `Merging.Rejoin` | klee/lib/Core/ExecutionState.cpp:386-390 | The rebuilt constraint list holds exactly where one of the two path conditions does |
| `Merging.MergeLocals` | klee/lib/Core/ExecutionState.cpp:356-365 | Registers set in both states select between the two values, all others are left |
| `Merging.MergeThreads` | klee/lib/Core/ExecutionState.cpp:342-367 | The same for all frames of all threads |
| `StateMerging.MergeBytes` | klee/lib/Core/ExecutionState.cpp:379-383 | Byte by byte, the object gets the contents of the first where the selector holds and those of the second elsewhere, although both are read and written on the way |
| `StateMerging.MergeObject` | klee/lib/Core/ExecutionState.cpp:369-384 | The same for an object of an address space, through copy on write; no other object changes its meaning |
| `StateMerging.MergeMemory` | klee/lib/Core/ExecutionState.cpp:303-384 | The same for all objects that differ |
| `StateMerging.ExecutionState.Merge` | klee/lib/Core/ExecutionState.cpp:217-393 | Exactly when a merge succeeds; a failed one changes nothing; a successful one has as path condition the disjunction of both, and every register set in both states and every byte has each state's value under that state's inputs; the other state keeps its meaning |
| `FoldingBuilder.BuildAdd` | klee/lib/Expr/ExprBuilder.cpp:700-784 | Terminates together with `BuildSub` by total size, then the number of non-constant operands, then the size of the left one |
| `FoldingBuilder.BuildAddSound` | klee/lib/Expr/ExprBuilder.cpp:700-784 | The builder's sum has the value of the unfolded sum for every operand pair and assignment |
| `FoldingBuilder.BuildSub` | klee/lib/Expr/ExprBuilder.cpp:786-872 | Terminates together with `BuildAdd` |
| `FoldingBuilder.BuildSubSound` | klee/lib/Expr/ExprBuilder.cpp:786-872 | The same for differences |
| `FoldingBuilder.BuildAddBuilt` | klee/lib/Expr/ExprBuilder.cpp:700-784 | Sums of chains with at most one constant, at the left of the root, that lean to the right are such chains |
| `FoldingBuilder.BuildSubBuilt` | klee/lib/Expr/ExprBuilder.cpp:786-872 | So are differences |
| `FoldingBuilder.BuildFolds` | klee/lib/Expr/ExprBuilder.cpp:874-978 | Operations on constants give constants, and neutral or absorbing constants disappear on either side |
| `FoldingBuilder.BuildTyped` | klee/lib/Expr/ExprBuilder.cpp:693-978 | Every binary operation of the builder keeps the width |
| `FoldingBuilder.BuildSound` | klee/lib/Expr/ExprBuilder.cpp:693-978 | Every binary operation of the builder has the value of the unfolded node under every assignment |
| `FoldingBuilder.BuildRead` | klee/lib/Expr/ExprBuilder.cpp:326-337 | The loop drops the longest series of latest writes that are provably elsewhere |
| `FoldingBuilder.SkippedMost` | klee/lib/Expr/ExprBuilder.cpp:326-337 | Exactly the longest run of latest writes that are provably elsewhere is dropped |
| `FoldingBuilder.BuildReadSound` | klee/lib/Expr/ExprBuilder.cpp:326-337 | A rolled-back read keeps its value |

## Left out

- LLVM instruction decoding, floating point, external calls, printing, files and timers.
- The solver chain and the path slicer: modelled by arbitrary exact answers and arbitrary index lists. Solver failures and time-outs are not modelled.
- Hash values and pointer order: equality is structural, and sets have no order, so the order in which a merge conjoins constraints is arbitrary.
- Constant-array optimisation of equalities (`klee/lib/Expr/Expr.cpp:979-1007`), off by default.
- Zero divisors, which the source excludes: unsigned division gives the dividend, the remainder zero.
- Widths above 64 bits are treated like all others; some tests on constants in the source accept 64 bits only.
- Bytes of a constant array outside its initial contents: taken from the assignment.
- Seeds, replay, forced branches, skipped forks and implied-value concretisation in forking and constraint adding; switches (`klee/lib/Core/Executor.cpp:1763-1764` makes the partition property depend on block sharing).
- Condition variables: waiting on one does not block the waiter in the source (`klee/lib/Core/SpecialFunctionHandler.cpp:1097-1103`), so the mutex properties are about mutexes alone.
- What happens when no thread can run: the scheduler model returns -1, the source would then look up a thread that does not exist.
- Reading back addresses of pthread structures and resolution of their pointers: mutexes are named by numbers.
- Reference counts and deallocation; after the last removal the root of the process tree dangles, as in the source.
- Memory.ObjectState.Load: asks for an offset in canonical linear form, which the constructors give; for an offset that breaks this form a byte address in the loop could fold to a constant, which the byte access refuses by assertion (`klee/lib/Core/Memory.cpp:442`).
- Memory.ObjectState.Store: asks for the same, and for constants of up to 64 bits at constant offsets one of the five widths that the source accepts.
- Memory.ObjectState.constructor: contents of a fresh buffer are a parameter; backing arrays are constant arrays, as by default.
- Distances.MinDistToReturn: distances are unbounded, the source keeps the cost of passing a call in 32 bits.
- Uncovered.MinDistToUncovered: the same.
- CallPaths.CallPathManager.GetSummaryStatistics: the record of statistics is one number, since all of its fields are summed alike.
- Resolution.Resolve: a cap of one has no effect, as in the source, where a list of one element is handled before the cap is looked at.
- StateMerging.ExecutionState.Merge: asks for objects that are writable and of equal sizes where they differ and for registers of equal widths, as the source asserts or relies on; merges memory after registers and constraints, which do not depend on it.
- Exploration.Executor.Fork: searcher updates other than random path selection, coverage records and path files are not modelled.
- Threads.ThreadedState.CreateThread: program counters and stacks of threads are not modelled.
- The simplifying builder and the unary, cast and select operations of the folding builder: they would only add easy members.
- Merging of statistics, coverage and symbolic path files; implied values; checkers; test-file codec; lexer and printer of expressions; memory allocation.
