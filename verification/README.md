# Verified models of the shader compiler's self-contained algorithms

The compiler contains a number of algorithms that can be stated without LLVM once types, values,
instructions and memory images are ordinary data. This project models them in Dafny and proves what they are for.

| module | models | main result |
|---|---|---|
| `OriginTracking`, `ValueInfoBuilding`, `OriginTracker` | the byte-wise origin analysis `ValueOriginTracker` | every slice reported for a value holds in every execution, and is the one its transfer function gives |
| `ValueSpecialization` | the recursive dword rewrite `ValueSpecializer` | exactly the requested dwords of supported leaves change, and the count is exact |
| `SpecializerAgreement` | the cross-check between the two | specializing, building and analysing any value succeeds exactly if all requested dwords lie in supported leaves |
| `MsgPackReader` | the nine-status iterator of `ElfReader` | the stops of the iterator are the recursive pre-order walk of the document |
| `NonUniformTrace` | the search for a non-uniform index | lanes that agree on the index agree on the descriptor; no index exactly for provably uniform values |
| `DxilVectors` | replacement of i1 vectors by i32 vectors | the lowered program follows a run of the original one exactly as long as no dropped select meets undef with poison |
| `TypeConversion`, `PhiSimplification`, `TupleMap` | `TypeLowering` and its value map | conversion commutes with indexing; simplified phis keep their value in every run, and it is known exactly when a replaced phi remains; the value map with its reverse map refines a map of tuples |
| `MetadataWalk` | `MetadataUpdater` | exactly the reachable nodes are expanded, each once, also in cyclic graphs |
| `PipelineText` | `parsePipelineText` | the parser accepts an exactly characterised set of texts and is the inverse of the printer |
| `PointeeMetadata` | the `!pointeetys` encoder and decoder | the exact signatures for which decoding recovers every pointee type |
| `Determinant`, `MatrixBuilder` | determinant, inverse, products and transpose | for every order, the adjugate-based inverse is a left and a right inverse |
| `HalfRounding` | float to half conversion with integer operations | nearest, ties to even, for every bit pattern |
| `Crc64` | `calculateCrc64` | equal to CRC-64/XZ computed in the reflected register; affine; detects every change within eight bytes |
| `EntryHandles` | `EntryHandle` and the `ICache` contract | no run violates the contract; a handle is leaked exactly by assigning onto a handle that is not empty |

Functions that compute a value are functions, and code that works by updating state is a method or a class whose
methods are proved against such functions. Instruction builders are modelled by what the built instructions compute.

## How the properties are stated

*Origin analysis.* A value has a memory image made of defined and undefined bits. An execution assigns an image to
every value such that each one fits its definition; a definition that leaves its result open (a call, a load) fits
any image. `Sound` says that each slice has a status that explains the data bits there. That alone would be met by an
analysis that always answers "dynamic, from myself". `Transferred` therefore gives the exact result of each kind of
instruction, and the class invariant demands that every recorded result is of this form; only a phi may ignore an
incoming value, and only an instruction that comes later in reverse post order. The `Settled` lemmas say what that form
means slice by slice.

*Specialization.* The instructions that the specializer creates are an expression over the specialized value, which is
evaluated to bytes. What a freeze picks is kept symbolic. `Allowed` states, per byte, what may be there afterwards; it
is defined by the position of the byte in the type, without reference to the recursion of the specializer. Which leaves are
supported is stated twice: by recursion over the type (`SiteOf`), and by index paths (`ScalarsAreSites`, `SitesAreScalars`).

*Lowering of i1 vectors.* Values carry poison and undef. The value map is part of the model: an operand is what it has
been mapped to, which can be a constant that the instruction builder has folded, or, after a dropped select, the value of
another instruction. The folder is a parameter; the theorems hold for every folder that replaces instructions on constants
by constants at least as defined. States are related if each original value is refined by what it is mapped to, where
vectors of i1 are compared with zero-extensions. A run is a sequence of instructions and block entries with the branches
taken; phis read their incoming values in the state before the block. When an instruction is executed again, a run forgets
the results it dominates; `PhiSimplification.DominatedIsCurrent` shows that no use is reached before they are computed anew.

*Non-uniform index.* A lane is an assignment of values. Two lanes of a wave agree on constants, on the results of
uniform calls, and on the function that each operation computes from its operands; arguments, loads from private or
flat memory and unknown instructions may differ. Returning the value itself would always be right, so `IndexExactly` and
`ChainIndex` say which narrower value is returned.

*Phis.* Values are the same at a point of a run if the same execution of the same definition supplied them, so the
theorem also covers loops in which a definition is executed many times.

## Where code and documentation differ

- `PointeeMetadata`: the general format puts the type of parameter `i` at entry `i + 1`. If the return type is a
  pointer, two or more parameters are pointers and the first of them is not parameter 0, the constructor leaves the
  first parameter's type at entry 1, because the return type's entry makes the test `size() <= 1` fail.
  `RoundTripExactly` proves that pointee types are recovered exactly in all other cases, `OnlyFirstPointerLost` that
  nothing else is lost, and `LostPointee` is the smallest example.
- `ValueSpecialization`: a 64-bit leaf of which one dword is kept is rewritten with `and` and `or`. If the original
  leaf contains poison, the other dword becomes poison too instead of the requested one. `AllAsRequestedExactly`: all
  requested dwords are as requested if and only if there is no such leaf; `PoisonedHalf` is an example.
- `SpecializerAgreement`: if the specialized value is itself a constant struct, the builder folds the insertions, and
  the analysis does not look into constant structs (`ConstantStructNotReported`). For every other value
  `SpecializeAndCheck` succeeds exactly if all requested dwords lie in supported leaves.
- `DxilVectors`: visitSelect drops a select one of whose operands is mapped to undef. The remaining operand may have a poison
  lane where an undef lane was selected, and poison is not a refinement of undef. `RunSimulatedExactly`: the lowered
  program follows a run if and only if no executed select is of this kind. `RunSimulated` gives a condition on the
  original run alone, and `UndefIsLost` is a program, with a folded shuffle of undef, in which an extracted lane changes
  from undef to poison, for either operand.
- `PhiSimplification`: in blocks that no run reaches, the components of a phi can come in as each other. Each is then
  replaced by the other, both are erased, and the mapping still mentions one (`UnreachableCycle`). `FinishedExactly`: a
  replaced phi is still mentioned if and only if a later replacement puts it in again; in reachable blocks none does.
- `EntryHandles`: assigning by move onto a handle that is not empty forgets the handle held before, which is then
  never released (`LeakingRun`). `NothingLostExactly` proves that nothing else loses a handle.
- `TupleMap`: `lookupUniqueKey` finds nothing if the first recorded mention of the value is inside a longer tuple, even if
  one other key maps to the value alone; the answer depends on the order of updates (`FindAmongTuples`). If no longer
  tuple has the value, a key is found exactly if there is one (`FindKey`).
- `ValueInfoBuilding`: for a type longer than the analysed prefix, `createExtraction` copies one slice for each slice of the
  result although the aggregate may have fewer. `ShortenedExtraction` says exactly when all of them exist, and
  `ShortenedExtractionFails` is an example.

## Model

| member | source | states |
|---|---|---|
| OriginTracking.CombineSliceInfosForSelect | compilerutils/lib/ValueOriginTracking.cpp:81-150 | One slice is kept as it is. None is returned exactly for no slices or for slices whose constants or origins conflict; otherwise the result has the union of the statuses with the common constant and the common origin |
| OriginTracking.IncludesCovers | compilerutils/lib/ValueOriginTracking.cpp:84-150 | A combined slice that includes what an alternative claims is right wherever the alternative was right |
| ValueInfoBuilding.CreateDynamic | compilerutils/lib/ValueOriginTracking.cpp:255-261 | Every slice refers to the value itself at the offset of the slice; there are NumSlices of them |
| ValueInfoBuilding.DynamicSound | compilerutils/lib/ValueOriginTracking.cpp:170-176 | Referring to itself is right for every value in every execution |
| ValueInfoBuilding.UndefSound | compilerutils/lib/ValueOriginTracking.cpp:177-183 | All slices of undef or poison being undefined is right in every execution |
| ValueInfoBuilding.CreateUniformConstant | compilerutils/lib/ValueOriginTracking.cpp:185-210 | Every slice is constant and has exactly the bits of the given word, without those past the end of the type in a slice that the type does not fill |
| ValueInfoBuilding.NullSound | compilerutils/lib/ValueOriginTracking.cpp:185-210 | All-zero constant slices are right for a null constant, also with a partly filled last slice |
| ValueInfoBuilding.SliceOfAPInt | compilerutils/lib/ValueOriginTracking.cpp:216-230 | Bit k of an extracted slice is set if and only if that bit of the slice is set in the wide integer and lies in the 64-bit word in which the slice begins; only slices of three bytes can straddle two words |
| ValueInfoBuilding.WordsKnownExactly | compilerutils/lib/ValueOriginTracking.cpp:232-252 | The comparison of known ones and zeros with the mask holds if and only if all bits of the slice are known and lie in one 64-bit word |
| ValueInfoBuilding.CreateConstant | compilerutils/lib/ValueOriginTracking.cpp:212-253 | A slice is constant if and only if all its bits are known (for slices of three bytes: and lie in one 64-bit word); then its bits are those known to be one, and otherwise the slice names the value itself at its own offset |
| ValueInfoBuilding.KnownBitsExactly | compilerutils/lib/ValueOriginTracking.cpp:212-253 | The same for every result that the mask comparison gives, bit by bit |
| ValueInfoBuilding.KnownSound | compilerutils/lib/ValueOriginTracking.cpp:212-253 | That result is right for every image that agrees with the known bits |
| ValueInfoBuilding.CreateExtraction | compilerutils/lib/ValueOriginTracking.cpp:265-286 | For an aligned offset inside the aggregate, the slices from there on; otherwise dynamic slices |
| ValueInfoBuilding.ExtractionSound | compilerutils/lib/ValueOriginTracking.cpp:265-286 | If the aggregate's slices are right, those of the extracted value are |
| ValueInfoBuilding.ShortenedExtraction | compilerutils/lib/ValueOriginTracking.cpp:265-286 | For an aggregate longer than the analysed prefix, all copied slices exist if and only if the extracted part ends within the slices of the aggregate or starts behind them |
| ValueInfoBuilding.ShortenedExtractionFails | compilerutils/lib/ValueOriginTracking.cpp:265-286 | Eight bytes extracted from the second slice of a twelve-byte value, with a limit of eight bytes, need a slice that does not exist |
| ValueInfoBuilding.CreateInsertion | compilerutils/lib/ValueOriginTracking.cpp:291-322 | In bytes: a slice outside the inserted range stays; a slice wholly inside an aligned range is that of the inserted value; every other one, the last slice of a shortened value included, refers to the value itself |
| ValueInfoBuilding.InsertionSound | compilerutils/lib/ValueOriginTracking.cpp:291-322 | If both operands' slices are right, those of the result are, including the last slice of a value whose size is no multiple of the slice size |
| ValueInfoBuilding.SequenceSound | compilerutils/lib/ValueOriginTracking.cpp:548-579 | Putting the slices of the elements of a constant array or vector next to each other is right for the whole |
| ValueInfoBuilding.CreateSelect | compilerutils/lib/ValueOriginTracking.cpp:326-359 | Each slice is the combination of the alternatives' slices, or dynamic if they conflict; one alternative is copied; the result stops where an alternative has no more slices |
| ValueInfoBuilding.SelectedExactly | compilerutils/lib/ValueOriginTracking.cpp:81-150 | Slice by slice: two alternatives with different constants or different origins make it refer to the value itself, and otherwise it has every status of an alternative, with the common constant and the common origin |
| ValueInfoBuilding.SelectSound | compilerutils/lib/ValueOriginTracking.cpp:326-359 | The result is right in every execution in which the value equals any one of the alternatives |
| ValueInfoBuilding.CastSound | compilerutils/lib/ValueOriginTracking.cpp:631-638 | A bit cast or address space cast has its operand's slices |
| ValueInfoBuilding.CreateFreeze | compilerutils/lib/ValueOriginTracking.cpp:416-430 | Forward mode copies all slices; Dynamic mode replaces those that may be undefined by dynamic ones |
| ValueInfoBuilding.FreezeSound | compilerutils/lib/ValueOriginTracking.cpp:416-430 | In both modes the slices are right for whatever value the freeze picks |
| ValueInfoBuilding.CreateFromAssumption | compilerutils/lib/ValueOriginTracking.cpp:368-411 | Constant and undefined assumptions are taken over; an assumption that names the first byte of a slice of an analysed value gives that slice; every other slice refers to the value itself |
| ValueInfoBuilding.AssumptionSound | compilerutils/lib/ValueOriginTracking.cpp:368-411 | If the assumption holds and the referenced analyses are right, so is the result |
| OriginTracker.ValueOriginTracker.ComputeConstantValueInfo | compilerutils/lib/ValueOriginTracking.cpp:498-580 | The result for a constant is right and is the one of its kind of constant; elements of sequences are analysed and recorded, earlier results are unchanged, and the recursion ends |
| OriginTracker.ValueOriginTracker.ComputeValueInfoFromAssumption | compilerutils/lib/ValueOriginTracking.cpp:584-600 | The result is right in every execution in which the client's assumptions hold |
| OriginTracker.ValueOriginTracker.ComputeInstruction | compilerutils/lib/ValueOriginTracking.cpp:630-766 | Every case of the instruction switch gives the result of its transfer function, and that result is right in every execution |
| OriginTracker.ValueOriginTracker.ComputePhi | compilerutils/lib/ValueOriginTracking.cpp:716-730 | A phi with an incoming value that has not been analysed refers to itself; otherwise it combines the incoming values |
| OriginTracker.ValueOriginTracker.ComputeValueInfo | compilerutils/lib/ValueOriginTracking.cpp:609-766 | Right and exact for every definition, given the results its operands need; every lookup the source asserts to succeed does |
| OriginTracker.ValueOriginTracker.GetOrComputeValueInfo | compilerutils/lib/ValueOriginTracking.cpp:768-777 | Records one result per value, never changes an earlier one, and returns the recorded one |
| OriginTracker.ValueOriginTracker.CollectDependencies | compilerutils/lib/ValueOriginTracking.cpp:795-832 | The worklist ends, and the pending set is closed under the operands and assumption references of its members |
| OriginTracker.ValueOriginTracker.AnalyzePending | compilerutils/lib/ValueOriginTracking.cpp:834-847 | One pass in reverse post order analyses every pending instruction after all it needs |
| OriginTracker.ValueOriginTracker.AnalyzeValues | compilerutils/lib/ValueOriginTracking.cpp:785-848 | Without truncation: afterwards every requested value has a result, all results are right and settled, and earlier ones are unchanged |
| OriginTracker.ValueOriginTracker.GetValueInfo | compilerutils/lib/ValueOriginTracking.cpp:779-783 | For every value of every untruncated program: a full set of slices, each right in every execution, where an execution gives each value one image |
| OriginTracker.SettledLater | compilerutils/lib/ValueOriginTracking.cpp:768-777 | Results recorded later do not invalidate that a result is the one of its transfer function |
| OriginTracker.SettledCopies | compilerutils/lib/ValueOriginTracking.cpp:631-645 | Recorded results of casts, and of freezes in Forward mode, are those of the operand; in Dynamic mode exactly the slices that may be undefined refer to the freeze |
| OriginTracker.SettledExtraction | compilerutils/lib/ValueOriginTracking.cpp:265-286 | Slice i of a recorded aligned extraction is the slice of the aggregate at the offset plus i |
| OriginTracker.SettledInsertion | compilerutils/lib/ValueOriginTracking.cpp:291-322 | Slices of a recorded insertion are those of the aggregate outside the range and those of the inserted value wholly inside an aligned range |
| OriginTracker.SettledSelection | compilerutils/lib/ValueOriginTracking.cpp:326-359 | A recorded select, and a phi into which no instruction comes that is later in reverse post order, combines the recorded slices of all alternatives; a phi of constants is never ignored |
| OriginTracker.SettledConstants | compilerutils/lib/ValueOriginTracking.cpp:498-547 | Undef is undefined in every slice, null is zero, and values with known bits have the slices of those bits |
| OriginTracker.SettledSequence | compilerutils/lib/ValueOriginTracking.cpp:548-579 | Slice e * m + t of a packed sequence of constants with m whole slices each is slice t of element e |
| OriginTracker.SettledAssumption | compilerutils/lib/ValueOriginTracking.cpp:368-411 | A recorded result for an assumption is the assumption, or the recorded slice that it names |
| OriginTracker.MissingAreLate | compilerutils/lib/ValueOriginTracking.cpp:716-730 | During the pass, an incoming value of a phi without a result comes at or after the phi in reverse post order |
| OriginTracker.SingleConstant | compilerutils/lib/ValueOriginTracking.cpp:436-470 | A slice reported as constant and nothing else equals that constant in every execution |
| OriginTracker.FrozenOriginExactly | compilerutils/lib/ValueOriginTracking.cpp:639-644 | A freeze with a dynamic slice reproduces exactly the bits of the origin that are defined |
| ValueSpecialization.ComputeSpecializationSummary | compilerutils/lib/ValueSpecialization.cpp:43-53 | Whether all and whether any dwords are requested |
| ValueSpecialization.ValueSpecializer.ReplaceDwordsInInteger | compilerutils/lib/ValueSpecialization.cpp:92-176 | The bytes of an integer leaf are the allowed ones, the count grows by its requests, and nothing is returned exactly if there are none in a supported width |
| ValueSpecialization.ValueSpecializer.ReplaceDwordsInScalar | compilerutils/lib/ValueSpecialization.cpp:92-215 | The same for floats and pointers, which go through integers of their width |
| ValueSpecialization.ValueSpecializer.ReplaceDwordsInVector | compilerutils/lib/ValueSpecialization.cpp:215-261 | The same for vectors of 32- and 64-bit elements; the loop keeps all elements not requested |
| ValueSpecialization.ValueSpecializer.ReplaceDwordsImpl | compilerutils/lib/ValueSpecialization.cpp:263-356 | For the part of the root value that an index path leads to: that part has the allowed bytes, everything else is unchanged, and the count and the null result are exact |
| ValueSpecialization.ValueSpecializer.ReplaceElement | compilerutils/lib/ValueSpecialization.cpp:310-356 | One iteration over the elements of an aggregate changes only bytes of that element, skips elements that are not on dword boundaries, and counts their requests |
| ValueSpecialization.ValueSpecializer.ReplaceDwords | compilerutils/lib/ValueSpecialization.cpp:64-90 | For every nested type and every request list: requested constants and frozen poison in requested dwords of supported leaves, the original bytes everywhere else, a count that is the number of requested supported dwords, and null if and only if the count is zero |
| ValueSpecialization.AllAsRequestedExactly | compilerutils/lib/ValueSpecialization.cpp:140-172 | Every requested dword of a supported leaf is as requested if and only if no 64-bit leaf that contains poison keeps exactly one dword |
| ValueSpecialization.AsRequestedExactly | compilerutils/lib/ValueSpecialization.cpp:140-172 | The same for each dword: in such a leaf no requested dword is as requested, and a kept one is unchanged only if it was poison throughout |
| ValueSpecialization.PoisonedHalf | compilerutils/lib/ValueSpecialization.cpp:140-172 | A poison i64 whose low dword is kept and whose high dword is to become a constant stays poison |
| ValueSpecialization.SiteFits | compilerutils/lib/ValueSpecialization.cpp:263-356 | Every supported leaf lies inside the type on dword boundaries, and all its dwords belong to it |
| ValueSpecialization.ElementSite | compilerutils/lib/ValueSpecialization.cpp:310-356 | The leaf that a dword of an aggregate belongs to is the one that the dword belongs to in its element, and there is none in misaligned elements |
| ValueSpecialization.ScalarsAreSites | compilerutils/lib/ValueSpecialization.cpp:263-356 | Completeness: if the offset and the size of every element on an index path are divisible by 4, then every dword of a 32- or 64-bit integer, float or pointer at its end, or of any such element of a vector there, belongs to a supported leaf at exactly that place |
| ValueSpecialization.SitesAreScalars | compilerutils/lib/ValueSpecialization.cpp:263-356 | The converse: every supported dword belongs to such a scalar at the end of such a path, so there are no others |
| ValueSpecialization.SecondDword | compilerutils/lib/ValueSpecialization.cpp:328-336 | Both dwords of a struct of an i32 and a float are supported |
| ValueSpecialization.RequestedCounts | compilerutils/lib/ValueSpecialization.cpp:64-90 | The count of the recursion is the size of the set of requested supported dwords |
| ValueSpecialization.HalvesRewritten | compilerutils/lib/ValueSpecialization.cpp:120-176 | Masking and combining the halves of a 64-bit integer yields both requested halves, the kept half unchanged, and poison throughout exactly if the kept value had poison |
| ValueSpecialization.ElementStep | compilerutils/lib/ValueSpecialization.cpp:310-356 | Rewriting the elements one by one rewrites the aggregate, padding included |
| ValueSpecialization.NothingRequested | compilerutils/lib/ValueSpecialization.cpp:64-90 | Without a request in a supported leaf, the unchanged value is the specialized value |
| SpecializerAgreement.ReplacementReported | compilerutils/lib/ValueSpecializationTestPass.cpp:140-165 | In Forward mode, the analysis of the built instructions reports every constant dword, zero and constants in float leaves included, as exactly that constant and every frozen dword as exactly undefined |
| SpecializerAgreement.RequestReported | compilerutils/lib/ValueSpecializationTestPass.cpp:152-164 | Every dword specialized to c is reported as exactly Constant c and every frozen-poison dword as exactly UndefOrPoison |
| SpecializerAgreement.CompareSlices | compilerutils/lib/ValueSpecializationTestPass.cpp:149-165 | For any analysis result and any requests: succeeds if and only if there are as many slices as dwords, each constant request is met by a slice that is Constant only with that value, and each frozen-poison request by one that is UndefOrPoison only |
| SpecializerAgreement.CheckReplacement | compilerutils/lib/ValueSpecializationTestPass.cpp:140-165 | For a specialized value, that comparison never fails |
| SpecializerAgreement.SpecializeAndCheck | compilerutils/lib/ValueSpecializationTestPass.cpp:129-165 | For every nested type with 32-bit leaves that is not longer than the analysed prefix, every request list and every value that is not a constant: specializing, comparing the counts, building, analysing and comparing the slices succeeds if and only if all requested dwords lie in supported leaves |
| SpecializerAgreement.EmitRepresents | compilerutils/lib/ValueSpecializationTestPass.cpp:148-149 | The program built for a replacement is typed, ordered, and represents it |
| SpecializerAgreement.CountsAgree | compilerutils/lib/ValueSpecializationTestPass.cpp:135-138 | The number of replaced dwords is the number of requested ones if and only if all requested dwords lie in supported leaves |
| SpecializerAgreement.ConstantStructNotReported | compilerutils/lib/ValueOriginTracking.cpp:537-539 | A constant struct that is not null is reported as dynamic, so the check would fail where the builder folds insertions into a constant struct |
| MsgPackReader.Reader.constructor | util/vkgcElfReader.cpp:382-395 | What the new iterator has left to visit is the whole pre-order walk of the document |
| MsgPackReader.Reader.GetNextMsgNode | util/vkgcElfReader.cpp:399-494 | Each call moves on by exactly one item of the walk, keeps the stack well formed, and returns false exactly when nothing is left; no pop underflows |
| MsgPackReader.Reader.PostCheck | util/vkgcElfReader.cpp:466-491 | After a finished child, the container on top moves to its next child or to its end |
| MsgPackReader.Reader.GetItem | util/vkgcElfReader.cpp:498-520 | Node, status and map level are those of the current item of the walk |
| MsgPackReader.ReadDocument | tool/dumper/vkgcPipelineDumper.cpp:2410-2474 | The client's loop ends and sees exactly the recursive pre-order walk: begin, pairs, keys, values and ends with their nodes and levels |
| MsgPackReader.WalkOfNested | util/vkgcElfReader.cpp:399-494 | The nine stops of a map with an array that holds a number and an empty map, with their levels |
| MsgPackReader.LevelIsOpenMaps | util/vkgcElfReader.cpp:409-460 | In every well-formed state the map level is the number of maps entered and not yet left, hence 0 for an empty stack |
| NonUniformTrace.Run | lgc/builder/BuilderImpl.cpp:520-659 | The worklist search ends, never has more than two pending instructions, and returns nothing if and only if the value is provably uniform, the index whenever the search meets one, and otherwise a narrowest value among those that were visited alone |
| NonUniformTrace.Visit | lgc/builder/BuilderImpl.cpp:550-656 | One iteration either stops with the smallest value or replaces an instruction by at most two of lower rank without changing the answer |
| NonUniformTrace.Propagate | lgc/builder/BuilderImpl.cpp:539-548 | Fails exactly for arguments and for a third pending instruction; constants need no search |
| NonUniformTrace.ExploreSound | lgc/builder/BuilderImpl.cpp:550-656 | Wherever the search stops, lanes that agree on the value found so far agree on the explored value |
| NonUniformTrace.IndexIsSound | lgc/builder/BuilderImpl.cpp:511-519 | If no index is returned, the value is the same in all lanes; if x is, lanes that agree on x agree on the value |
| NonUniformTrace.UniformExactly | lgc/builder/BuilderImpl.cpp:520-659 | No index is returned if and only if the value is built from constants and always-uniform calls within the limit of two pending instructions |
| NonUniformTrace.IndexExactly | lgc/builder/BuilderImpl.cpp:520-659 | The exact answer of the recursive search in the same terms: nothing, the index that is found, or the first narrowest of the instructions visited alone |
| NonUniformTrace.ChainIndex | lgc/builder/BuilderImpl.cpp:550-656 | If instructions with one operand lead to a one-index getelementptr with a provably uniform base, and the index is no wider than any of them, the answer is the index, or the operand of the cast or unary operation that computes it |
| NonUniformTrace.DescriptorIndex | lgc/builder/BuilderImpl.cpp:594-612 | A descriptor loaded from an array at a variable index: the answer is the index and not the address |
| DxilVectors.LowerBody | compilerutils/lib/DxilToLlvm.cpp:242-304 | Visits the instructions in order with their operands mapped, folds what the builder folds, fills in the incoming values of phis at the end, and fails if and only if some operand is a constant vector of i1 that is neither poison nor undef nor false in all lanes |
| DxilVectors.ConstantsBecome | compilerutils/lib/TypeLowering.cpp:98-111 | Poison, undef and all-false vectors of i1 become vectors of as many poison, undef and zero words; other constants stay |
| DxilVectors.LoweredCode | compilerutils/lib/DxilToLlvm.cpp:242-304 | The exact code that replaces each instruction on vectors of i1 where nothing is folded |
| DxilVectors.LoweredSelect | compilerutils/lib/TypeLowering.cpp:614-645 | A select is replaced by an operand exactly if one is poison or undef throughout or both are the same, and by a select of the mapped operands otherwise |
| DxilVectors.MappingSettled | compilerutils/lib/TypeLowering.cpp:288-319 | A result is mapped to a constant, to its own replacement, to an argument, or, through dropped selects, to the replacement of a dominating instruction |
| DxilVectors.InsertElementSimulated | compilerutils/lib/DxilToLlvm.cpp:242-265 | Inserting the zero-extended element, with either instruction possibly folded, leaves a value that refines the zero-extension of the original vector |
| DxilVectors.ExtractElementSimulated | compilerutils/lib/DxilToLlvm.cpp:267-284 | Truncating the extracted word, with either instruction possibly folded, leaves a value that refines the original bit |
| DxilVectors.ShuffleVectorSimulated | compilerutils/lib/DxilToLlvm.cpp:286-304 | Shuffling the mapped vectors with the same mask, possibly folded, keeps the lanes related, poison mask entries included |
| DxilVectors.SelectSimulated | compilerutils/lib/TypeLowering.cpp:614-645 | Dropping a select or selecting between the mapped vectors keeps the states related if and only if it does not let an undef lane that is selected meet a poison lane of the remaining operand |
| DxilVectors.StoreSimulated | compilerutils/lib/TypeLowering.cpp:651-678 | Stored vectors stay related, so later loads read related values |
| DxilVectors.PhiSimulated | compilerutils/lib/TypeLowering.cpp:590-609 | The converted phi takes the converted incoming value for every predecessor |
| DxilVectors.RunSimulated | compilerutils/lib/DxilToLlvm.cpp:376-399 | Every run of the original program in which no dropped select takes an undef lane where its other operand is poison is a run of the lowered program, with related values and memory after every step |
| DxilVectors.RunSimulatedExactly | compilerutils/lib/DxilToLlvm.cpp:376-399 | The lowered program follows a run, with related values and memory after every step, if and only if no step executes a select that loses an undef lane, in either orientation |
| DxilVectors.KeptSelect | compilerutils/lib/TypeLowering.cpp:629-643 | The condition on the original program is implied by the one on both programs, and equals it where poison lanes of the operands have stayed poison |
| DxilVectors.ScalarsUnchanged | compilerutils/lib/DxilToLlvm.cpp:267-284 | In such runs every scalar that is not poison or undef, in particular every extracted element, is the same in the lowered program |
| DxilVectors.LosingIsValid | compilerutils/lib/TypeLowering.cpp:629-643 | The example of a lost lane is a lowering that the pass produces, with its value map and folded shuffle |
| DxilVectors.UndefIsLost | compilerutils/lib/TypeLowering.cpp:629-643 | A shuffle of undef vectors, a select and an extraction: in the run the extracted lane is undef before and poison after the pass, whichever operand is undef |
| TypeConversion.TypeLowering.ConvertType | compilerutils/lib/TypeLowering.cpp:234-248 | The types recorded for a type are returned, are never changed later, and satisfy the rules or the aggregate conversion; new struct names are fresh; the recursion ends |
| TypeConversion.LastRuleWins | compilerutils/lib/TypeLowering.cpp:239-245 | A type is converted by the last rule that gives types for it, and by none if and only if no rule gives any |
| TypeConversion.TypeLowering.CoreTypeConverter | compilerutils/lib/TypeLowering.cpp:43-89 | Arrays and structs are rebuilt exactly if an element changes, with 1:n elements packed into structs, and a rebuilt struct with a name gets a name that has not been given out before |
| TypeConversion.TypeLowering.ConvertElements | compilerutils/lib/TypeLowering.cpp:59-72 | The new elements are the converted ones in order, and a conversion is needed if and only if one of them changed |
| TypeConversion.ConversionCommutesWithIndexing | compilerutils/lib/TypeLowering.cpp:43-89 | With rules for leaves only, an index path valid in a type is valid in its conversion and ends at the conversion of the element type |
| TypeConversion.ConversionIsIdempotent | compilerutils/lib/TypeLowering.cpp:234-248 | If the rules map their results to themselves, so does the conversion |
| TypeConversion.ConvertedShape | compilerutils/lib/TypeLowering.cpp:43-89 | The conversion of an aggregate is one aggregate with the converted elements in the same places |
| TypeConversion.ConvertedFits | compilerutils/lib/TypeLowering.cpp:43-89 | If the replacements of leaves fit the types that replace the leaf types, then the values that represent any value fit the converted types, one by one and packed |
| TypeConversion.ExtractConverted | compilerutils/lib/TypeLowering.cpp:490-510 | Extracting with the same indices from a converted aggregate yields the converted element |
| TypeConversion.InsertConverted | compilerutils/lib/TypeLowering.cpp:517-545 | Inserting a converted element with the same indices yields the converted aggregate |
| TypeConversion.UnchangedValue | compilerutils/lib/TypeLowering.cpp:85-88 | A value whose type is not converted represents itself, which allows the visitors to leave it alone |
| TypeConversion.VisitExtract | compilerutils/lib/TypeLowering.cpp:490-510 | The recorded values are those that represent the extracted element, unpacked if there are several |
| TypeConversion.VisitInsert | compilerutils/lib/TypeLowering.cpp:517-545 | The new insert represents the original insert, whether the inserted value is unchanged, converted to one value, or to several |
| TupleMap.LoweringPointerTupleMap.Lookup | compilerutils/include/compilerutils/LoweringPointerTupleMap.h:111-117 | The tuple of the key, or nothing |
| TupleMap.LoweringPointerTupleMap.LookupUniqueKey | compilerutils/include/compilerutils/LoweringPointerTupleMap.h:119-131 | A returned key maps to the value alone; nothing is returned if and only if no tuple has the value or its first recorded mention is in a longer tuple |
| TupleMap.LoweringPointerTupleMap.FindKey | compilerutils/include/compilerutils/LoweringPointerTupleMap.h:119-131 | If no longer tuple has the value, a key is found if and only if some key maps to the value alone |
| TupleMap.FindAmongTuples | compilerutils/include/compilerutils/LoweringPointerTupleMap.h:119-179 | With one longer tuple and one single mapping of a value, the single one is found exactly if it was recorded first |
| TupleMap.LoweringPointerTupleMap.Set | compilerutils/include/compilerutils/LoweringPointerTupleMap.h:133-179 | Exactly the entry of the key changes: an empty tuple removes it, any other replaces it; the reverse map stays exact, and for a new key first mentions stay first |
| TupleMap.LoweringPointerTupleMap.ReplaceAllUsesOfWith | compilerutils/include/compilerutils/LoweringPointerTupleMap.h:197-226 | Every occurrence of the value in every tuple is replaced and nothing else changes; the merged reverse entries stay exact and without duplicates |
| TupleMap.LoweringPointerTupleMap.ClearReverseMap | compilerutils/include/compilerutils/LoweringPointerTupleMap.h:230-252 | Exactly the mentions of one key are forgotten |
| TupleMap.StoredReplaced | compilerutils/include/compilerutils/LoweringPointerTupleMap.h:210-218 | Overwriting the recorded places of a value replaces it in the tuples, for tagged and untagged places alike |
| TupleMap.ReversesReplaced | compilerutils/include/compilerutils/LoweringPointerTupleMap.h:220-225 | Moving the occurrences to the new value keeps the reverse map exact, whether or not it had occurrences before |
| TupleMap.StoredTuple | compilerutils/include/compilerutils/LoweringPointerTupleMap.h:159-176 | Appending a tuple to the shared storage leaves all other tuples as they are |
| PhiSimplification.AccumulatedExactly | compilerutils/lib/TypeLowering.cpp:400-415 | The accumulator of none, one value or null tells exactly whether the incomings other than the phi are none, one or several |
| PhiSimplification.TrivialPhiHolds | compilerutils/lib/TypeLowering.cpp:417-435 | In every run, wherever a phi with a unique non-self incoming may be used, its value is that of the last execution of that incoming |
| PhiSimplification.DefinedElsewhere | compilerutils/lib/TypeLowering.cpp:417-435 | The unique incoming of a phi in a reachable block is defined in another block that dominates the phi |
| PhiSimplification.DominatedIsCurrent | compilerutils/lib/TypeLowering.cpp:424-428 | Where a value may be used, its block has been passed since the last visit of every block that dominates it, so no use sees a value of an earlier iteration |
| PhiSimplification.UniqueIsTrivial | compilerutils/lib/TypeLowering.cpp:417-435 | A phi component whose accumulator ends with one value meets the conditions of that theorem |
| PhiSimplification.AvailableSubstituted | compilerutils/lib/TypeLowering.cpp:380-387 | After a replacement every mapped value is still available where it is mapped |
| PhiSimplification.TypeLowering.CollectIncomings | compilerutils/lib/TypeLowering.cpp:400-415 | The new phis get the converted incomings in order, and the accumulators classify them |
| PhiSimplification.TypeLowering.FinishPhi | compilerutils/lib/TypeLowering.cpp:396-437 | For any control flow: exactly the components with a unique non-self incoming are replaced by it, in order, and all new phis are filled in |
| PhiSimplification.TypeLowering.FinishPhis | compilerutils/lib/TypeLowering.cpp:389-440 | For any control flow: the replacements are those of the accumulators, the value map is the old one with them applied, the phis have the converted incomings, and exactly the replaced ones will be erased. For valid code in reachable blocks every replacement is justified and no mapping or operand mentions a replaced phi |
| PhiSimplification.FinishedExactly | compilerutils/lib/TypeLowering.cpp:417-435 | After finishing any records, a replaced phi is still mentioned by a mapping if and only if a later replacement puts it in again |
| PhiSimplification.RemainsExactly | compilerutils/lib/TypeLowering.cpp:380-387 | The same for any sequence of replacements of different phis |
| PhiSimplification.UnreachableCycle | compilerutils/lib/TypeLowering.cpp:389-440 | A run of finishPhis on a phi whose two components come in as each other erases both and leaves one in the mapping |
| MetadataWalk.MetadataUpdater.ProcessNode | compilerutils/lib/DxilToLlvm.cpp:131-157 | Ends on every graph, cyclic ones included, and leaves the updater in a state in which everything reachable from the processed roots is done |
| MetadataWalk.MetadataUpdater.VisitOperand | compilerutils/lib/DxilToLlvm.cpp:144-154 | One operand extends what has been looked at, and queues a node only once |
| MetadataWalk.MetadataUpdater.ProcessedExactly | compilerutils/lib/DxilToLlvm.cpp:131-157 | Between calls, exactly the nodes reachable from the roots have been processed, and each has been expanded once |
| MetadataWalk.MetadataUpdater.ValuesExactly | compilerutils/lib/DxilToLlvm.cpp:111-126 | Exactly the value metadata that reachable nodes mention, once or many times, and whose type is converted refer to the replacement of their value; all others are unchanged |
| MetadataWalk.MetadataUpdater.RunAll | compilerutils/lib/DxilToLlvm.cpp:72-108 | After any sequence of calls, the roots are all the given nodes |
| PipelineText.ParsePipelineText | compilerutils/lib/ModuleBunch.cpp:259-311 | For every text: accepted if and only if acceptable, and then a valid pipeline that prints as the text; every stack entry is the inner pipeline of the last element of the entry below |
| PipelineText.ConsumeCloses | compilerutils/lib/ModuleBunch.cpp:285-304 | The greedy loop over closing parentheses pops one entry each, and rejects exactly texts that are not acceptable |
| PipelineText.ParserInvertsPrinter | compilerutils/lib/ModuleBunch.cpp:259-311 | Parsing what a valid pipeline prints as gives back that pipeline |
| PipelineText.PipelineUnique | compilerutils/lib/ModuleBunch.cpp:259-311 | Different valid pipelines print as different texts |
| PipelineText.PipelineAcceptable | compilerutils/lib/ModuleBunch.cpp:259-311 | The text of every valid pipeline is acceptable |
| PipelineText.StackOfSpine | compilerutils/lib/ModuleBunch.cpp:260-283 | The pointers on the stack lead through last elements, so growing the innermost pipeline leaves them all valid |
| PipelineText.PrintedText | compilerutils/lib/ModuleBunch.cpp:259-311 | The text of a nested pipeline: names, inner pipelines in parentheses, commas in between |
| PipelineText.Unacceptable | compilerutils/lib/ModuleBunch.cpp:285-304 | Unbalanced parentheses, and a name or an opening parenthesis behind a closing one, are not accepted |
| PointeeMetadata.TypedFuncTy.constructor | compilerutils/lib/TypesMetadata.cpp:104-139 | The loop of pushes, resizes and swaps builds the tuple given in closed form by Built, for every signature |
| PointeeMetadata.DocumentedRecovers | compilerutils/lib/TypesMetadata.cpp:145-170 | The decoder recovers every pointee type from the documented simple and general formats and never takes one for the other |
| PointeeMetadata.RoundTripExactly | compilerutils/lib/TypesMetadata.cpp:104-170 | The constructor's tuple has the documented format, and decoding recovers all pointee types, if and only if the signature is not displaced |
| PointeeMetadata.DisplacedMeans | compilerutils/lib/TypesMetadata.cpp:112-134 | A signature is displaced if and only if the return type and at least two parameters are pointers and the first parameter is not |
| PointeeMetadata.AccessorsExactly | compilerutils/lib/TypesMetadata.cpp:180-190 | On an object that the constructor has built, getReturnType gives the return type, and getParamType gives parameter i at i for all i if and only if the signature is not displaced; otherwise only the pointee type of the first pointer parameter is missing |
| PointeeMetadata.OnlyFirstPointerLost | compilerutils/lib/TypesMetadata.cpp:104-170 | In a displaced signature exactly the first pointer parameter's type is missing |
| PointeeMetadata.LostPointee | compilerutils/lib/TypesMetadata.cpp:112-134 | A function that returns a pointer and takes an integer and two pointers loses the type of the first pointer |
| PointeeMetadata.TypedFuncTy.GetParamTypes | compilerutils/lib/TypesMetadata.cpp:193-196 | One entry per parameter, in order; for an object built from parameter types, these are the parameter types, but for the pointee type of the first pointer of a displaced signature |
| Determinant.SwapNegates | lgc/builder/MatrixBuilder.cpp:229-263 | Swapping neighbouring columns negates the first-column expansion, for every order |
| Determinant.ColumnExpansion | lgc/builder/MatrixBuilder.cpp:229-263 | Expansion along any column gives the determinant |
| Determinant.CofactorsAgainstColumn | lgc/builder/MatrixBuilder.cpp:289-345 | The cofactors of one column times another column sum to the determinant or to zero |
| Determinant.TransposeKeepsDet | lgc/builder/MatrixBuilder.cpp:229-263 | Transposition keeps the determinant |
| Determinant.RowExpansion | lgc/builder/MatrixBuilder.cpp:229-263 | Expansion along the first row gives the determinant as well |
| MatrixBuilder.GetSubmatrix | lgc/builder/MatrixBuilder.cpp:271-282 | The running indices copy exactly the entries outside the deleted row and column, in order |
| MatrixBuilder.Expand | lgc/builder/MatrixBuilder.cpp:229-263 | The recursion with its special cases for small orders is the determinant |
| MatrixBuilder.CreateDeterminant | lgc/builder/MatrixBuilder.cpp:206-223 | The determinant of a matrix given by columns |
| MatrixBuilder.AdjugateIsLeftInverse | lgc/builder/MatrixBuilder.cpp:289-345 | The scaled transposed cofactors times the matrix are the identity, for every order |
| MatrixBuilder.AdjugateIsRightInverse | lgc/builder/MatrixBuilder.cpp:289-345 | So is the matrix times the scaled transposed cofactors |
| MatrixBuilder.CreateMatrixInverse | lgc/builder/MatrixBuilder.cpp:289-345 | For every order from 2 and every matrix with nonzero determinant, the built matrix is a left and a right inverse |
| MatrixBuilder.CreateMatrixTimesVector | lgc/builder/MatrixBuilder.cpp:139-158 | Accumulating scaled columns gives the row-by-column products |
| MatrixBuilder.CreateMatrixTimesMatrix | lgc/builder/MatrixBuilder.cpp:164-179 | Every entry of the product is a row times a column, also for matrices that are not square |
| MatrixBuilder.CreateTransposeMatrix | lgc/builder/MatrixBuilder.cpp:43-84 | Entry (r, c) of the matrix becomes entry (c, r), for every shape |
| HalfRounding.RoundShiftIsNearestEven | lgc/builder/ArithBuilder.cpp:168-176 | For every m and every k from 1, adding the lowest kept bit and the rounder and shifting gives the integer nearest to m / 2^k, ties to even |
| HalfRounding.MiddlesDecide | lgc/builder/ArithBuilder.cpp:178-193 | A pattern between the middles to its neighbours is the correctly rounded one, and infinity from the overflow threshold on |
| HalfRounding.RoundingIsMonotone | lgc/builder/ArithBuilder.cpp:128-198 | Larger magnitudes never round to smaller patterns, and the rounded pattern is unique |
| HalfRounding.RepresentableRoundsToItself | lgc/builder/ArithBuilder.cpp:128-198 | A magnitude that half precision has rounds to itself only |
| HalfRounding.TooSmallRoundsToZero | lgc/builder/ArithBuilder.cpp:159-184 | Below the threshold of isTooSmall, zero is the correct result, including the tie |
| HalfRounding.DenormRounds | lgc/builder/ArithBuilder.cpp:160-184 | Denormal results are correctly rounded, also when they become the smallest normal number |
| HalfRounding.NormalRounds | lgc/builder/ArithBuilder.cpp:162-193 | Normal results are correctly rounded, also when the mantissa carries into the exponent or the result overflows |
| HalfRounding.TruncationRounds | lgc/builder/ArithBuilder.cpp:128-198 | For all 2^32 patterns: the sign is kept, NaN becomes a NaN with the leading payload bits, infinity stays infinity, and every other value rounds to nearest, ties to even (section 4.3.1 of IEEE 754-2019) |
| Crc64.CalculateCrc64 | util/vkgcUtil.cpp:325-370 | The byte and bit loops compute the checksum of the shift register |
| Crc64.Reflect64 | util/vkgcUtil.cpp:337-345 | The loop over the bits computes the reflection |
| Crc64.ReflectMeaning | util/vkgcUtil.cpp:337-345 | Bit i of the reflection is bit 63 - i |
| Crc64.FeedReflected | util/vkgcUtil.cpp:350-364 | Feeding a reflected byte from the top is feeding the byte from the bottom of the reflected register |
| Crc64.ReflectedChecksum | util/vkgcUtil.cpp:325-370 | With both reflections the checksum is CRC-64/XZ, computed with the reversed polynomial in a register that shifts right |
| Crc64.CheckValue | util/vkgcUtil.cpp:325-370 | Without reflections, the text 123456789 has the published check value of CRC-64/WE |
| Crc64.ReflectedCheckValue | util/vkgcUtil.cpp:325-370 | With both reflections it has that of CRC-64/XZ |
| Crc64.RegisterComposes | util/vkgcUtil.cpp:350-364 | The register composes over concatenation |
| Crc64.RegisterXor | util/vkgcUtil.cpp:350-364 | The register is linear over exclusive or of registers and messages |
| Crc64.ChecksumAffine | util/vkgcUtil.cpp:325-370 | The checksum of the exclusive or of three messages of one length is the exclusive or of their checksums |
| Crc64.ChecksumDetects | util/vkgcUtil.cpp:325-370 | Messages that differ only within eight consecutive bytes have different checksums |
| EntryHandles.EntryHandle.Move | include/vkgcDefs.h:1894-1899 | The new handle owns what the other one owned, and the other one is empty |
| EntryHandles.EntryHandle.MoveAssign | include/vkgcDefs.h:1901-1913 | Ownership moves, self-assignment keeps it, and what was held before is forgotten without telling the cache |
| EntryHandles.EntryHandle.ReleaseHandle | include/vkgcDefs.h:1915-1926 | The handle is emptied and the cache sees a failed population, if one was due, and the release, in this order |
| EntryHandles.EntryHandle.SetValue | include/vkgcDefs.h:1946-1951 | The cache is told once; the handle stays owned and no population is due any more |
| EntryHandles.EntryHandle.Put | include/vkgcDefs.h:1954-1966 | As ReleaseHandle; nothing for an empty handle |
| EntryHandles.Scope.Step | include/vkgcDefs.h:1880-1971 | Every operation on handle objects that share a cache leads to the state that the run model gives, calls to the cache included |
| EntryHandles.Scope.RunAll | include/vkgcDefs.h:1880-1971 | So does every run |
| EntryHandles.RunKeeps | include/vkgcDefs.h:1880-1971 | In every run each raw handle has at most one owner, whose obligations are those the cache expects |
| EntryHandles.RunConforms | include/vkgcDefs.h:1842-1857 | No run releases a handle twice, populates it twice or without being asked to, or releases one whose population is still due |
| EntryHandles.ReleasedExactly | include/vkgcDefs.h:1880-1971 | Once no variable holds a handle, a raw handle has been released if and only if no assignment has overwritten it |
| EntryHandles.NothingLostExactly | include/vkgcDefs.h:1901-1913 | No handle is lost if and only if every move assignment was onto an empty handle or onto itself |
| EntryHandles.LeakingRun | include/vkgcDefs.h:1901-1913 | Acquire twice, assign the second handle onto the first and destroy both: the first handle is never released |
| EntryHandles.StatusCounts | include/vkgcDefs.h:1842-1857 | A handle that is done has been released exactly once, and populated exactly once if that was demanded and never otherwise |

## Left out

- LLVM itself: instructions, types and constants are data; the data layout appears as bit widths, memory images and element offsets, known bits as a claim about an image, and reverse post order as an order of the instructions.
- Origin analysis of types longer than the analysed prefix: the theorems carry the hypothesis that nothing is truncated; only `ShortenedExtraction` looks beyond it.
- Loop-carried phis in the origin analysis: as in the source, a phi with an incoming value that comes later refers to itself.
- OriginTracker.ValueOriginTracker.GetValueInfo: an execution assigns one image to each value, so a value that a loop computes repeatedly is covered for one iteration at a time. A phi whose incoming value was analysed by an earlier query can name that value although it comes from the previous iteration.
- OriginTracker.ValueOriginTracker.AnalyzeValues: as for GetValueInfo; types are not truncated and there is one reverse post order.
- ValueInfoBuilding.CreateExtraction: extractions that need slices behind a shortened aggregate are excluded; the source reads behind the end of its slices there.
- ValueInfoBuilding.CreateInsertion: insertions of values with fewer slices than the range they cover, which truncation only can cause, are excluded.
- ValueInfoBuilding.KnownSound: known bits are taken to be defined bits. The source asks LLVM for known bits of any integer instruction, and these say nothing about a result that is poison, so a constant slice of such an instruction means that constant or poison.
- Functions in the origin analysis: all instructions are in one reverse post order, while the source makes one pass per function.
- OriginTracking.IncludesCovers: a dynamic slice claims that every defined bit of its origin is reproduced; undefined bits of the origin may have been replaced by a freeze. In Forward mode an undefined slice claims nothing about the bits, since a freeze of it may have picked any.
- SpecializerAgreement.CheckReplacement: types with pointers are left out, since the analysis does not look through the conversion from integers to pointers; leaves have 32 bits and slices four bytes, as in the original check. The specialized value is not a constant (see above), and the flags that switch off parts of the check are not modelled.
- ReplaceUses and insertion points of the specializer: they place instructions and redirect uses, which does not affect the value computed.
- NonUniformTrace.IndexIsSound: memory other than flat and private memory is the same for all lanes, and constants, undef included, have one value.
- The dependency table of the non-uniform search (addDependents) and the waterfall loop that uses it.
- DxilVectors.RunSimulatedExactly: the constant folder of the instruction builder is a parameter that is assumed to be right. Select conditions are scalars, and one that is not a definite bit gives poison; the zero-extension of undef stays undef; memory is addressed by whole values and reading one of another type is poison; getelementptr, calls and function signatures are not modelled, and the simplification of phis is modelled separately.
- TypeConversion.ConversionCommutesWithIndexing: rules apply to leaves only. The assertion that a converted struct is not packed is not modelled, nor are function arguments, globals and allocas.
- PhiSimplification.TypeLowering.FinishPhis: that replacements are justified is stated for code in which every mapped value is available where it is mapped. Erasing the instructions is not modelled.
- TupleMap.LoweringPointerTupleMap.LookupUniqueKey: if several keys map to the value alone, which one is returned is not stated; null is taken not to be a key.
- TupleMap: indices do not overflow 63 bits, and returned references, which the source calls unstable, are values.
- MetadataWalk.MetadataUpdater.ValuesExactly: merging of value metadata that become equal after a replacement is not modelled; metadata have identities that stay.
- PipelineText: inner vectors are values addressed by paths; that a path stays valid stands for a pointer that does not go stale, and reallocation of vectors that are not on the stack is not modelled.
- PointeeMetadata: reading the metadata of an existing function and attaching it, and the callback for DXIL parsing. Where the source asserts that a pointee is present, the model returns none; operands beyond the end count as none.
- MsgPackReader: parsing of the binary form and the printing of nodes; keys are plain values, as the source asserts.
- MatrixBuilder: arithmetic is exact over the reals; rounding, fast-math flags, the names of values, cooperative matrices and the scalar and outer products are left out.
- HalfRounding.TruncationRounds: the other rounding modes, which are intrinsics, and vectors, which are treated by lane.
- EntryHandles.RunKeeps: every raw handle that the cache gives out is a new one; values, waiting and failures of the cache are left out.
- Inlining across modules, argument promotion, cloning of functions, recorders and replayers, descriptors and the rest of the compiler: mostly calls into LLVM or tables with one easy branch each.
