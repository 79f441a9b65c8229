# Generator lowering, int list storage and builtin call checks

A Dafny model of three pieces of a Python-on-Truffle interpreter, with proofs
about each.

- **Generator translation** (modules `GeneratorNodes`, `GeneratorTranslator`,
  `GeneratorTranslatorProofs`). A generator function's body is rewritten once
  into a resumable form:
  - the single return target is split into argument loads and a resumable body;
  - local-variable reads and writes move to the persistent generator frame;
  - every block and for-loop above a yield becomes a generator variant and
    takes a fresh slot from one of two counters;
  - generator expressions are marked to run in the enclosing frame;
  - breaks out of generator for-loops are retargeted with the block slots
    they leave.

  The Truffle node tree is a `Node` datatype: a kind tag and a sequence of
  children. Nodes are addressed by child-index paths from the function body,
  and `Node.replace` is a functional update at a path. A Java `assert`, a
  failing cast or `TranslationUtil.notCovered()` becomes a `Failure` value.
- **Int sequence storage** (module `IntSequenceStorage`). This is the unboxed
  `int[]` backing store of a list: an array, a logical length, and capacity
  equal to the array's length. Each operation takes a storage value and
  returns the new one. Operations with a loop run it over a fresh array and
  carry loop invariants.
- **Builtin functions** (module `BuiltinFunction`). This covers the two
  constructors, the arity and keyword check with its exact `TypeError`
  messages, and the call that packs keyword arguments.

Well-formedness of input trees is a lemma hypothesis, not a precondition of
the translation. It means:
- a return target has two children;
- a for-loop has three, and its target holds no yield;
- an advance-iterator node has one child.

The translation is claimed to match the Java code only on well-formed trees.
The model finds all yields as paths before the walk rewrites anything. The
for-loop rule drops the advance-iterator level of the loop's target. It
therefore keeps the paths of the nodes above a yield only when the target
holds no yield. On other trees those paths can go stale, while the Java code
holds node objects.

## Model

| member | source | states |
|---|---|---|
| GeneratorTranslator.Translate | graal/edu.uci.python.parser/src/edu/uci/python/parser/GeneratorTranslator.java:59-60 | a translation succeeds only with exactly one return target; with any other number it fails with that count |
| GeneratorTranslator.SplitArgumentLoads | graal/edu.uci.python.parser/src/edu/uci/python/parser/GeneratorTranslator.java:121-132 | a block body must hold exactly two statements, which become the argument loads and the resumable body; any other body becomes the resumable body after an empty node; the return node is kept; a block of another size fails with its statement count |
| GeneratorTranslatorProofs.SplitThenUnsplit | graal/edu.uci.python.parser/src/edu/uci/python/parser/GeneratorTranslator.java:124-131 | reassembling the split parts gives back the original return target, so the split drops nothing |
| GeneratorTranslatorProofs.UnsplitThenSplit | graal/edu.uci.python.parser/src/edu/uci/python/parser/GeneratorTranslator.java:124-131 | splitting a reassembled generator return target gives back the same three parts |
| GeneratorTranslatorProofs.RedirectLocalsSpec | graal/edu.uci.python.parser/src/edu/uci/python/parser/GeneratorTranslator.java:66-80 | the three passes keep every path; each local write becomes a frame write with the same slot, each local read a frame read with the same slot, and every other node is untouched |
| GeneratorTranslatorProofs.SecondReadPassIdle | graal/edu.uci.python.parser/src/edu/uci/python/parser/GeneratorTranslator.java:78-80 | the second sweep over reads finds nothing left to replace |
| GeneratorTranslatorProofs.PrepareOutcome | graal/edu.uci.python.parser/src/edu/uci/python/parser/GeneratorTranslator.java:59-82 | preparation succeeds exactly when there is one return target and its body splits; the assertion that no local read remains never fails |
| GeneratorTranslatorProofs.PreparedHasNoLocals | graal/edu.uci.python.parser/src/edu/uci/python/parser/GeneratorTranslator.java:66-82 | after redirection, no node of the tree is a local read or write |
| GeneratorNodes.GeneratorVariantsRecognised | graal/edu.uci.python.parser/src/edu/uci/python/parser/GeneratorTranslator.java:138-140 | every class the translator creates, the frame accesses and generator expressions have "Generator" in their simple class name, so they count as already replaced |
| GeneratorNodes.PlainKindsNotRecognised | graal/edu.uci.python.parser/src/edu/uci/python/parser/GeneratorTranslator.java:138-140 | no other fixed node class has "Generator" in its simple class name |
| GeneratorTranslatorProofs.ForRuleEffect | graal/edu.uci.python.parser/src/edu/uci/python/parser/GeneratorTranslator.java:142-153 | the for-loop rule succeeds exactly when its three casts hold; the loop becomes an inner generator for-node at depth 0 and a generator for-node deeper, with the loop's target, iterator and body and the next iterator slot; nodes outside the loop keep their kinds |
| GeneratorTranslator.ForRule | graal/edu.uci.python.parser/src/edu/uci/python/parser/GeneratorTranslator.java:147 | a successful for-loop rule takes exactly one iterator slot and no block slot |
| GeneratorTranslatorProofs.BlockRuleEffect | graal/edu.uci.python.parser/src/edu/uci/python/parser/GeneratorTranslator.java:154-162 | the block rule keeps every path and every node's children; the block becomes a generator block with the next index slot; the yield becomes a generator yield with that same slot exactly when the block is its parent; no other node changes kind |
| GeneratorTranslator.BlockRule | graal/edu.uci.python.parser/src/edu/uci/python/parser/GeneratorTranslator.java:156 | the block rule takes exactly one block slot and no iterator slot |
| GeneratorTranslator.ReplaceControls | graal/edu.uci.python.parser/src/edu/uci/python/parser/GeneratorTranslator.java:134-168 | one visit takes at most one slot in total, and neither counter goes down |
| GeneratorTranslatorProofs.ForStep | graal/edu.uci.python.parser/src/edu/uci/python/parser/GeneratorTranslator.java:142-153 | rewriting a for-loop above a yield keeps the tree well formed and its yields in place; the iterator slots gain exactly the old counter value and the block slots are unchanged |
| GeneratorTranslatorProofs.BlockStep | graal/edu.uci.python.parser/src/edu/uci/python/parser/GeneratorTranslator.java:154-162 | rewriting a block above a yield keeps the tree well formed and its yields in place; the block slots gain exactly the old counter value and the iterator slots are unchanged |
| GeneratorTranslatorProofs.ControlsStep | graal/edu.uci.python.parser/src/edu/uci/python/parser/GeneratorTranslator.java:134-168 | after a successful visit the node is a generator variant or an if, else, break target or while; the slots added are exactly those the counters moved past |
| GeneratorTranslatorProofs.WalkUpSpec | graal/edu.uci.python.parser/src/edu/uci/python/parser/GeneratorTranslator.java:85-91 | walking up from a yield leaves every ancestor it visited done, and each node on a yield's path is at most upgraded to its generator variant |
| GeneratorTranslatorProofs.WalkYieldsSpec | graal/edu.uci.python.parser/src/edu/uci/python/parser/GeneratorTranslator.java:84-92 | after the walks from all yields, every ancestor of each yield is done, and the slot multisets grew by exactly the counter ranges handed out |
| GeneratorTranslatorProofs.UncoveredAncestorFails | graal/edu.uci.python.parser/src/edu/uci/python/parser/GeneratorTranslator.java:134-167 | a yield with any other kind of ancestor (a return target, a continue target, an expression node, ...) makes the translation fail; so does a plain yield above it that is the body itself or whose parent is not a block |
| GeneratorTranslatorProofs.StrandedYieldStays | graal/edu.uci.python.parser/src/edu/uci/python/parser/GeneratorTranslator.java:84-92 | a plain yield above another yield, at the body or under a parent that is not a block, is still a plain yield after all the walks: only a block rule at its parent could rewrite it |
| GeneratorTranslatorProofs.YieldsEnclosed | graal/edu.uci.python.parser/src/edu/uci/python/parser/GeneratorTranslator.java:84-92 | after a successful translation every node above a yield is a generator variant or an if, else, break target or while |
| GeneratorTranslatorProofs.SlotsHandedOut | graal/edu.uci.python.parser/src/edu/uci/python/parser/GeneratorTranslator.java:46-47 | the result holds the input's slots plus block slots 0 .. n-1 and iterator slots 0 .. m-1, each once, where n and m are the final counter values |
| GeneratorTranslatorProofs.FreshSlotsDistinct | graal/edu.uci.python.parser/src/edu/uci/python/parser/GeneratorTranslator.java:170-184 | for a body without generator nodes, each block slot below the final block count occurs exactly once and no other occurs, and likewise for iterator slots, so the counters count the nodes rewritten |
| GeneratorTranslatorProofs.BreakOwnerSpec | graal/edu.uci.python.parser/src/edu/uci/python/parser/GeneratorTranslator.java:99-116 | a break is retargeted exactly when a generator for-node encloses it with only generator blocks, continue targets and ifs in between; it then gets that loop's iterator slot and the index slots of those blocks, innermost first |
| GeneratorTranslatorProofs.FinishSpec | graal/edu.uci.python.parser/src/edu/uci/python/parser/GeneratorTranslator.java:94-116 | in the finished tree every generator expression runs in the enclosing frame; a break owned by a generator for-node, through only generator blocks, continue targets and ifs, becomes a generator break with that loop's iterator slot and the passed blocks' index slots, innermost first; every other break and every other node keeps its kind, whatever order the breaks are visited in |
| GeneratorTranslatorProofs.FinishKinds | graal/edu.uci.python.parser/src/edu/uci/python/parser/GeneratorTranslator.java:94-116 | marking generator expressions and retargeting breaks keep every path and every yield, and leave done nodes done |
| IntSequenceStorage.FromArray | zippy/edu.uci.python/src/edu/uci/python/runtime/sequence/storage/IntSequenceStorage.java:46-50 | a storage built from an array holds exactly those elements, with capacity equal to their number |
| IntSequenceStorage.Empty | zippy/edu.uci.python/src/edu/uci/python/runtime/sequence/storage/IntSequenceStorage.java:42-44 | the empty storage holds nothing and has no capacity |
| IntSequenceStorage.EnsureCapacity | zippy/edu.uci.python/src/edu/uci/python/runtime/sequence/storage/IntSequenceStorage.java:53-56 | growth gives at least the asked capacity, keeps every old cell and the length, and zero-fills the new cells |
| IntSequenceStorage.MinimizeCapacity | zippy/edu.uci.python/src/edu/uci/python/runtime/sequence/storage/IntSequenceStorage.java:177 | shrinking keeps the elements and cuts the capacity to the length |
| IntSequenceStorage.Copy | zippy/edu.uci.python/src/edu/uci/python/runtime/sequence/storage/IntSequenceStorage.java:65-67 | a copy holds the same elements, with capacity equal to the length |
| IntSequenceStorage.GetIntItemNormalized | zippy/edu.uci.python/src/edu/uci/python/runtime/sequence/storage/IntSequenceStorage.java:97-104 | a read succeeds exactly when the index is inside the array, not the list; otherwise it raises IndexError "list index out of range"; inside the list it returns the element, and past the length it returns the stale spare cell |
| IntSequenceStorage.SetIntItemNormalized | zippy/edu.uci.python/src/edu/uci/python/runtime/sequence/storage/IntSequenceStorage.java:115-122 | a write succeeds exactly when the index is inside the array, otherwise IndexError "list assignment index out of range"; inside the list it replaces that one element; past the length the list is unchanged |
| IntSequenceStorage.AppendInt | zippy/edu.uci.python/src/edu/uci/python/runtime/sequence/storage/IntSequenceStorage.java:254-258 | append adds the value after the old elements |
| IntSequenceStorage.ExtendWithIntStorage | zippy/edu.uci.python/src/edu/uci/python/runtime/sequence/storage/IntSequenceStorage.java:270-280 | extend yields the old elements followed by the other storage's elements; the spare cells of the grown array are untouched |
| IntSequenceStorage.InsertIntItem | zippy/edu.uci.python/src/edu/uci/python/runtime/sequence/storage/IntSequenceStorage.java:133-143 | the index must lie inside the grown array, otherwise the store throws; the array becomes its prefix, the value, and the rest shifted right with the last cell dropped; for an index up to the length the list gains the value at that index with everything after it moved up |
| IntSequenceStorage.PopInBound | zippy/edu.uci.python/src/edu/uci/python/runtime/sequence/storage/IntSequenceStorage.java:207-216 | returns the element at the index and removes it; every later array cell moves one left and the last cell keeps its value |
| IntSequenceStorage.DelItemInBound | zippy/edu.uci.python/src/edu/uci/python/runtime/sequence/storage/IntSequenceStorage.java:198-204 | deleting at an index inside the list removes exactly that element, on both branches |
| IntSequenceStorage.DelSlice | zippy/edu.uci.python/src/edu/uci/python/runtime/sequence/storage/IntSequenceStorage.java:191-195 | with a missing stop the list is cut at start; with a stop given nothing changes |
| IntSequenceStorage.DelSliceIntended | zippy/edu.uci.python/src/edu/uci/python/runtime/sequence/storage/IntSequenceStorage.java:191-195 | the intended deletion: a missing stop cuts the list at start, and a given stop removes exactly the elements start .. stop - 1, keeping the rest in order and the capacity unchanged |
| IntSequenceStorage.DelSliceIgnoresStop | zippy/edu.uci.python/src/edu/uci/python/runtime/sequence/storage/IntSequenceStorage.java:192 | the two deletions agree when the stop is missing; deleting [0:1] from [1, 2, 3] leaves [1, 2, 3] as written and [2, 3] as intended |
| IntSequenceStorage.IndexOfInt | zippy/edu.uci.python/src/edu/uci/python/runtime/sequence/storage/IntSequenceStorage.java:235-243 | returns the least index holding the value, and -1 exactly when the value is absent |
| IntSequenceStorage.ReverseAsWritten | zippy/edu.uci.python/src/edu/uci/python/runtime/sequence/storage/IntSequenceStorage.java:284-294 | the loop with truncating middle fails with an array bound error exactly when the list is empty; otherwise it reverses the list and leaves the cells past the length alone |
| IntSequenceStorage.Reverse | zippy/edu.uci.python/src/edu/uci/python/runtime/sequence/storage/IntSequenceStorage.java:284-294 | reversal of any list, the empty one included, yields the reversed elements and keeps the spare cells |
| IntSequenceStorage.StridedStepOne | zippy/edu.uci.python/src/edu/uci/python/runtime/sequence/storage/IntSequenceStorage.java:149-156 | the stepped selection with step 1 is the contiguous block, so the fast path agrees with the loop |
| IntSequenceStorage.GetSliceInBound | zippy/edu.uci.python/src/edu/uci/python/runtime/sequence/storage/IntSequenceStorage.java:146-159 | the slice has the given length and capacity, and element j is the array cell start + j*step |
| IntSequenceStorage.SetIntSliceInBound | zippy/edu.uci.python/src/edu/uci/python/runtime/sequence/storage/IntSequenceStorage.java:170-188 | assigning over the whole list, whatever the step, makes it a copy of the other list. Otherwise the array grows to stop and the length becomes the larger of length and stop. A stop at or below start writes nothing. A negative start, a step below 1 with start below stop, or a source array too short for the stepped writes throws. Otherwise cell start + j*step takes the other's element j and every other cell keeps its value |
| IntSequenceStorage.ReversedSliceWritesNothing | zippy/edu.uci.python/src/edu/uci/python/runtime/sequence/storage/IntSequenceStorage.java:181-187 | the reversed slice start 2, stop -1, step -1 writes nothing: the list [1, 2, 3] stays as it was |
| IntSequenceStorage.SliceAssignStepOne | zippy/edu.uci.python/src/edu/uci/python/runtime/sequence/storage/IntSequenceStorage.java:181-187 | with step 1 inside the list, slice assignment replaces exactly the window [start, stop) and keeps the elements around it |
| IntSequenceStorage.Sort | zippy/edu.uci.python/src/edu/uci/python/runtime/sequence/storage/IntSequenceStorage.java:298-303 | sorting yields a sorted permutation of the elements, with capacity trimmed to the length |
| IntSequenceStorage.Equals | zippy/edu.uci.python/src/edu/uci/python/runtime/sequence/storage/IntSequenceStorage.java:330-343 | two storages are equal exactly when the other is an int storage holding the same elements |
| IntSequenceStorage.CopyEquals | zippy/edu.uci.python/src/edu/uci/python/runtime/sequence/storage/IntSequenceStorage.java:65-67 | a copy is equal to its original |
| IntSequenceStorage.PopLast | zippy/edu.uci.python/src/edu/uci/python/runtime/sequence/storage/IntSequenceStorage.java:218-222 | popping the last element returns it, and the shortened list plus that value is the old list |
| IntSequenceStorage.PopIntAsWritten | zippy/edu.uci.python/src/edu/uci/python/runtime/sequence/storage/IntSequenceStorage.java:218-222 | popInt as written shortens the list by one, keeps the capacity, and returns the last array cell, values[capacity - 1]; that is the last element when the array is full, and PopIntAgreesWithPopLast gives the exact condition |
| IntSequenceStorage.PopIntAgreesWithPopLast | zippy/edu.uci.python/src/edu/uci/python/runtime/sequence/storage/IntSequenceStorage.java:219 | popInt as written and the corrected pop agree exactly when the last array cell holds the last element |
| IntSequenceStorage.PopIntAfterPopInBound | zippy/edu.uci.python/src/edu/uci/python/runtime/sequence/storage/IntSequenceStorage.java:207-222 | on the list [7, 8], removing index 1 and then calling popInt returns 8, though the list's last element is 7 |
| BuiltinFunction.NewBuiltin | graal/edu.uci.python.runtime/src/edu/uci/python/runtime/datatypes/PBuiltinFunction.java:46-53 | the six-argument constructor records every field as given |
| BuiltinFunction.NewSimpleBuiltin | graal/edu.uci.python.runtime/src/edu/uci/python/runtime/datatypes/PBuiltinFunction.java:55-58 | the two-argument constructor leaves the counts at 0 and both flags false |
| BuiltinFunction.CheckForUnexpectedCall | graal/edu.uci.python.runtime/src/edu/uci/python/runtime/datatypes/PBuiltinFunction.java:88-105 | a call is refused exactly when keywords are given to a builtin that takes none, or a fixed-count builtin gets a count other than its maximum; the keyword refusal wins and says "name() takes no keyword arguments"; the arity refusal says "name() takes blurb (n given)" |
| BuiltinFunction.SimpleBuiltinRejectsOnlyKeywords | graal/edu.uci.python.runtime/src/edu/uci/python/runtime/datatypes/PBuiltinFunction.java:55-58 | a builtin from the two-argument constructor refuses exactly the calls with keywords, and never for arity |
| BuiltinFunction.BlurbFollowsMinimum | graal/edu.uci.python.runtime/src/edu/uci/python/runtime/datatypes/PBuiltinFunction.java:94-103 | for any fixed builtin whose least and greatest counts differ, every count but the greatest is refused with a message naming the least count, a message different from the one the greatest count would give |
| BuiltinFunction.ArityMessageNamesCount | graal/edu.uci.python.runtime/src/edu/uci/python/runtime/datatypes/PBuiltinFunction.java:103 | different argument counts give different arity messages |
| BuiltinFunction.ArityMessageNamesMinimum | graal/edu.uci.python.runtime/src/edu/uci/python/runtime/datatypes/PBuiltinFunction.java:95-103 | different minimum counts give different arity messages |
| BuiltinFunction.MessagesTellReasonsApart | graal/edu.uci.python.runtime/src/edu/uci/python/runtime/datatypes/PBuiltinFunction.java:89-103 | a keyword refusal message never equals an arity refusal message |
| BuiltinFunction.ParseNatToDecimal | graal/edu.uci.python.runtime/src/edu/uci/python/runtime/datatypes/PBuiltinFunction.java:100 | the decimal text of a count reads back as that count |
| BuiltinFunction.CallPositional | graal/edu.uci.python.runtime/src/edu/uci/python/runtime/datatypes/PBuiltinFunction.java:66-68 | a call without a keyword array goes straight to the call target with the positional arguments and no keywords |
| BuiltinFunction.PackKeywords | graal/edu.uci.python.runtime/src/edu/uci/python/runtime/datatypes/PBuiltinFunction.java:81-82 | the packed keywords have the same length and order as the given ones |
| BuiltinFunction.Call | graal/edu.uci.python.runtime/src/edu/uci/python/runtime/datatypes/PBuiltinFunction.java:71-85 | a call raises exactly when specialised builtins are on and the check refuses, with the check's message; otherwise it reaches the call target with the positional arguments, without a keyword array when there are no keywords and with the packed keywords when there are |

## Left out

- The call targets (`Truffle.getRuntime().createCallTarget`) are left out. The translation returns the rewritten body and the two counters, not a call target.
- The second generator-expression update goes through `NodeUtil.findMatchingNodeIn` on the uninitialized body (GeneratorTranslator.java:96). That body is not part of this model.
- `NodeUtil.findAllNodeInstances` is modelled as a pre-order search from the function body. The model takes that order for Truffle's own, which is not part of this model.
  - The order decides which slot numbers each block and for-loop receives.
  - It also decides which sibling yields in a block become generator yields. In `Block[Yield, Yield]`, only the yield walked first is rewritten. When the second yield's walk starts, its parent is already a generator block and is skipped, so the second stays a plain yield.
  - The slot contracts (SlotsHandedOut, FreshSlotsDistinct) are proved for the pre-order. The walk lemma beneath them, WalkYieldsSpec, takes the yields in any order.
- The run-time behaviour of the generator node classes is left out. Those classes are constructors that record their fields.
- `createParallelGeneratorCallTarget` is left out. It sits behind an option and clones a body that is not part of this model.
- The `context != null` assertion in `splitArgumentLoads` is left out. It concerns no tree state.
- `IntSequenceStorage` leaves out `generalizeFor`, `getInternalArray` boxing, the `Object`-typed wrappers and `getIndicativeValue`. They hand off to storage classes that are not part of this model.
- EnsureCapacity: the base class's growth policy is not part of this model. Growth is taken to be exact, to the asked size, with zero fill. A larger policy would also change behaviour that depends on the capacity:
  - the IndexError bound of GetIntItemNormalized and SetIntItemNormalized;
  - which branch DelItemInBound takes;
  - the value PopIntAsWritten returns, e.g. after an append it would return a spare cell.

  Those members' contracts are stated for exact growth only.
- Sort: insertion sort over sequences stands in for `Arrays.sort`. Only the sorted-permutation result is stated.
- IntSequenceStorage: lengths and indices are unbounded integers. A 32-bit overflow of `length + 1` or of `start + j*step` is not modelled.
- IntSequenceStorage: the `capacity` field is taken to equal the array's length at all times. A capacity change sets it from the array; `minimizeCapacity` is unseen and is taken to do the same.
- PopInBound, DelItemInBound and GetSliceInBound require their indices inside the list or array. Those methods are named "in bound", and their callers normalise indices first.
- DelSlice: requires `0 <= start <= length` when stop is missing, because a caller's normalised slice start always satisfies that.
- DelSlice: the Java method compares the stop with the sentinel `SequenceUtil.MISSING_INDEX`. The model gives the missing stop its own case, `Missing`. So `Index(i)` with the sentinel's numeric value, which Java would treat as missing, is a given stop in the model.
- SetIntSliceInBound: assigning a list to a slice of itself (`l[1:3] = l`) is not modelled. The Java loop then reads cells it has already overwritten: [1, 2, 3] becomes [1, 1, 1]. The model reads the source's original cells and would give [1, 1, 2]. Its contracts hold for a source that is a different storage.
- SetIntSliceInBound: when the loop throws, the result is an error without a storage. The cells written before the throw, and the growth to stop, are not modelled.
- InsertIntItem: for a negative index the Java loop first shifts every cell right and then throws at `values[-1]`, leaving the storage changed. The model returns an error without a storage, so that partly shifted state is not modelled.
- PopIntAsWritten: requires a non-empty list. On an empty list, popInt throws when the array is empty. Otherwise it returns the last array cell and sets the length to -1, a state the model's natural-number length cannot hold. Its only caller here, delItemInBound, always has a non-empty list.
- UncoveredAncestorFails: a plain yield above a yield whose parent is a block is not covered. It also fails when a yield walked earlier has already turned that block into a generator block. Whether that happened depends on the walk order, so no contract is stated for it.
- The effect of `PythonOptions.UseSpecializedBuiltins` is modelled as a parameter of `Call`.
- Call: the keyword array is typed as a sequence of `PKeyword`s, as the callers pass it. Java's parameter is an `Object[]`, and `System.arraycopy` into a `PKeyword[]` (PBuiltinFunction.java:80-81) would throw `ArrayStoreException` for any other element, after the check accepted the call. That error path is not modelled.
- `callTarget.call` is represented by the arguments it receives, not by what the builtin computes. The builtin's body and the calling frame are not part of this model.

## Findings

| source | as written | input that shows it | evidently intended | confidence | as-written member | corrected member |
|---|---|---|---|---|---|---|
| zippy/edu.uci.python/src/edu/uci/python/runtime/sequence/storage/IntSequenceStorage.java:219 | `popInt` returns the last cell of the array, `values[capacity - 1]` | the list [7, 8]: `popInBound(1)` leaves length 1 and the array [7, 8]; `popInt()` then returns 8 | return the last element, `values[length - 1]` | not executed | IntSequenceStorage.PopIntAfterPopInBound | IntSequenceStorage.PopLast |
| zippy/edu.uci.python/src/edu/uci/python/runtime/sequence/storage/IntSequenceStorage.java:286-292 | `reverse` on an empty list: `tail = -1` and truncating division gives `middle = 0`, so the loop runs once. It fails at `values[0]` when the array is empty, and otherwise at `values[-1]` | any storage of length 0 | reversing an empty list does nothing | not executed | IntSequenceStorage.ReverseAsWritten | IntSequenceStorage.Reverse |
| zippy/edu.uci.python/src/edu/uci/python/runtime/sequence/storage/IntSequenceStorage.java:191-195 | `delSlice` changes the list only when the stop is `MISSING_INDEX`; with a stop given it does nothing | the list [1, 2, 3] and `delSlice(0, 1)`: the list stays [1, 2, 3] | remove the elements start .. stop - 1, giving [2, 3] | not executed; the callers are not part of this model and may delete bounded slices another way | IntSequenceStorage.DelSliceIgnoresStop | IntSequenceStorage.DelSliceIntended |

`DelItemInBound` calls the as-written `popInt` only when the index is the
last array cell and lies inside the list. In that case the array is full, so
the as-written pop is correct there.
