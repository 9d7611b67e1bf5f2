# Breakpad in Dafny

A model of the algorithms at the core of Breakpad, the crash-reporting library, and proofs of what
they promise. Breakpad's dumper turns debugging information into symbol files; its processor loads
them and walks stacks with them; its client writes minidumps. The model covers, on both sides:

* **Lines and functions** (`LineAssignment`, `LineProgram`, `Sorting`). The pass that gives every
  function the parts of the source lines inside it, in wrapping 64-bit arithmetic, and the filter in
  front of it.
* **Contained range maps** (`ContainedRanges`, `ContainedRangeMap`, `Bytes`, `MapLayout`,
  `RangeSerializer`, `StaticRanges`). Trees of nested address ranges: as values, as objects updated
  in place, as bytes, and looked up in those bytes.
* **Linked pointers** (`LinkedPtr`). Reference tracking by circles of pointers in the heap.
* **Call frame information** (`RuleMaps`, `CfiCalls`, `CfiReports`, `CfiMeaning`, `CfiHandler`,
  `CfiRules`, `CfiRecords`, `RangeMaps`, `SymbolModule`, `CfiPipeline`, `Text`). From DWARF callbacks
  through STACK CFI records in a symbol file to the rules that the stack walker finds at an address.
* **Unicode** (`Utf`, `UtfProofs`, `ConvertUtf`, `StringConversion`). The six conversion routines
  and the functions that size their buffers, after section 3 of RFC 3629 and section 2 of RFC 2781.
* **MD5** (`Md5`). Streaming and padding, after sections 3.1 to 3.4 of RFC 1321.
* **Pages** (`PageAllocator`). The allocator that works without a heap.
* **STABS** (`StabsEntries`, `StabsEvents`, `StabsReader`, `StabsToModule`, `StabsFunctions`, `Stabs`). A
  reader with callbacks that must be bracketed on any input, the sizes inferred from what it reports, and
  the functions of a section told from its entries by position.

`Addresses` and `Options` are shared. Unsigned 64-bit numbers are integers below 2^64 with
`Plus` and `Minus` written out; `std::map` is a sequence in key order. Objects that the source
updates in place are classes, loops are loops, and each method is tied to a function of its inputs
about which the promises are proved. `hide` statements only keep definitions out of a proof that does
not need them.

Where the code does not do what its comments say, the model follows the code, and a lemma gives the
exact condition:

* `isLegalUTF8` accepts ED and F4 followed by a byte below 80 (`UtfProofs.LegalExactly`,
  `UtfProofs.FromUtf8`, `UtfProofs.LaxExample`).
* Strict `ConvertUTF32toUTF16` and `ConvertUTF32toUTF8` go on after values above 10FFFF
  (`UtfProofs.FromUtf32`, `UtfProofs.DroppedExample`). The comment in `convert_UTF.h` says that the
  source then points to the illegal value, which it does exactly if there is a surrogate
  (`UtfProofs.IllegalValue`). It also says that the first problem met is indicated, but running out of
  target hides such values (`UtfProofs.ResultFrom32`).
* `UTF16ToUTF8` reads its buffer as a C string, although nothing ends it unless the source holds a zero
  unit (`StringConversion.ReadsStorage`, `StringConversion.UnterminatedExample`).
* The second loop invariant of `AssignLinesToFunctions`, that coverage changes at the current
  address, fails exactly where functions or lines meet (`LineAssignment.SameStateExactly`,
  `LineAssignment.AbuttingExample`).
* `DwarfCFIToModule::Entry` records an empty rule for a return register without a name, although
  STACK CFI records must provide one. The frame is then lost exactly if no rule for the return address
  is reported at its start (`CfiReports.FrameComplete`, `CfiHandler.ReportThenFind`,
  `CfiHandler.EmptyNameNotFound`, `CfiHandler.EmptyNameExample`).
* `DwarfCFIToModule` drops rules that it cannot express, so a register can keep a rule that no longer
  holds (`CfiMeaning.StaleExactly`, `CfiHandler.ReportThenFind`, `CfiHandler.StaleExample`).
* A line that is exactly "STACK CFI" takes its record from the lines behind it, and ends the loading
  (`SymbolModules.BareLine`).
* Offsets in serialized maps are cut to 32 bits (`StaticRanges.MapValue`).
* `StabsReader::Process` ignores what `ProcessExtern` returns (`StabsReaders.StabsReader.Pass`,
  `StabsReaders.StabsReader.Process`). The comment in `stabs_reader.h` says that processing stops
  when a handler returns false, which it does exactly if the first refusal is not of an exported
  symbol.
* `Module::AddFunction` asserts that names are not empty, and a function without a name in a STABS
  section reaches it, exactly if it is not below its unit (`Stabs.LoadStabs`, `Stabs.UnnamedExample`).
* `PageAllocator::Alloc` computes the number of pages in 64 bits
  (`PageAllocators.RoomExactlyIfFits`, `PageAllocators.WrapExample`).

Check the project with `dafny verify dfyconfig.toml`.

## Model

| member | source | states |
|---|---|---|
| LineAssignment.CompilationUnit.AssignLinesToFunctions | src/common/dwarf_cu_to_module.cc:1786-1975 | for nonempty, non-wrapping functions and lines that are disjoint among themselves, every function gains exactly its nonempty intersections with the lines, in address order and with file and number kept; each function with an uncovered byte and each stray line is reported once, in order, and no other; for overlapping input every added piece still lies in its function and in one line, and the pass makes at most 2(functions + lines) steps |
| LineAssignment.CompilationUnit.Sweep | src/common/dwarf_cu_to_module.cc:1806-1975 | the same for vectors already in order: pieces, warnings, and the bound on the number of steps |
| LineAssignment.CompilationUnit.Iterate | src/common/dwarf_cu_to_module.cc:1847-1974 | one iteration keeps the first loop invariant of the source, keeps pieces and warnings equal to the specification up to the new position, and moves to a larger endpoint of a function or line, so the asserts hold even for overlapping input; the second loop invariant fails exactly where SameStateExactly says |
| LineAssignment.CompilationUnit.VisitAt | src/common/dwarf_cu_to_module.cc:1883-1947 | the four-way case split finds the next transition, with zero standing for the end of the address space, and adds the one piece or warning due at this byte |
| LineAssignment.CompilationUnit.Advance | src/common/dwarf_cu_to_module.cc:1956-1969 | both iterators move to the first function and line that contains or starts after the next transition |
| LineAssignment.CompilationUnit.Start | src/common/dwarf_cu_to_module.cc:1829-1845 | the pass starts at an endpoint, with the first loop invariant established |
| LineAssignment.CompilationUnit.Conclude | src/common/dwarf_cu_to_module.cc:1949-1975 | when both iterators are at the end, the loop invariant amounts to the exact pieces and warnings |
| LineAssignment.CompilationUnit.SortByAddress | src/common/dwarf_cu_to_module.cc:1801-1804 | both vectors are permuted into address order, and disjoint input becomes strictly ordered input |
| LineAssignment.CompilationUnit.FinishFunction | src/common/dwarf_cu_to_module.cc:1477-1514 | a function is added exactly when its range is nonempty and its address is not zero, whether the high address is given absolutely or as an offset that may wrap |
| LineAssignment.CompilationUnit.AddLine | src/common/dwarf_cu_to_module.cc:1892-1895 | pushing a piece onto one function changes that function's lines and no other output |
| LineAssignment.SameStateExactly | src/common/dwarf_cu_to_module.cc:1858-1861 | second loop invariant: for ordered input, an address has the same coverage as the one before it exactly when a function starts there if and only if one ends there, and likewise for lines; so at an endpoint the invariant fails exactly where functions or lines meet without any other change |
| LineAssignment.AbuttingExample | src/common/dwarf_cu_to_module.cc:1858-1861 | a function with two abutting lines inside it, where the pass stops at an address whose coverage is that of the byte before |
| LineAssignment.PiecesCover | src/common/dwarf_cu_to_module.cc:1796-1799 | an address is covered by the pieces of a function exactly when it lies in the function and in some line |
| LineAssignment.PiecesAscend | src/common/dwarf_cu_to_module.cc:1815-1818 | pieces of ordered lines are ordered and disjoint |
| LineAssignment.BareReported | src/common/dwarf_cu_to_module.cc:1898-1902 | UncoveredFunction has fired for exactly the functions with an uncovered byte below the current address, once each |
| LineAssignment.StrayReported | src/common/dwarf_cu_to_module.cc:1911-1928 | UncoveredLine has fired for exactly the stray lines up to the current address, once each, padding after a used line excepted |
| LineProgram.DwarfLineToModule.AddLine | src/common/dwarf_line_to_module.cc:106-141 | a row with a length, not at zero and not at the end of omitted rows, adds exactly one line, with its address, its length cut at the end of the address space, the file its number stands for now, and its number; any other adds none |
| LineProgram.KeptLinesExactly | src/common/dwarf_line_to_module.cc:106-141 | after any calls, a line is kept exactly if some row that names a known file calls for it, with its length cut at the end of the address space, and no run of abutting rows from address zero reaches that row |
| LineProgram.RowEnds | src/common/dwarf_line_to_module.cc:112-114 | a row ends at its address plus its length, or at the end of the address space if that is less |
| LineProgram.DwarfLineToModule.DefineFile | src/common/dwarf_line_to_module.cc:73-104 | a file number stands for the file defined last for it, found by its path from its directory, and -1 for the number after the highest; rows already added keep theirs |
| LineProgram.DwarfLineToModule.DefineDir | src/common/dwarf_line_to_module.cc:66-71 | a directory number stands for the path defined last for it, and zero always for the compilation directory |
| LineProgram.ExpandedPath | src/common/dwarf_line_to_module.cc:57-62 | a path that is absolute, or has no base, stays as it is; otherwise the base stands before it, with a slash between them that is added exactly if the base does not end in one |
| LineProgram.OmittedIffRun | src/common/dwarf_line_to_module.h:104-113 | a row is omitted exactly when it belongs to a run of abutting rows that begins at address zero, where rows abut if one starts at the other's address plus length |
| LineProgram.AppendRow | src/common/dwarf_line_to_module.cc:116-122 | the one word omitted_line_end_, which is zero or the end of the last omitted row, decides whether the next row is omitted, and is updated to what decides about the one after |
| LineProgram.KeptLinesProper | src/common/dwarf_line_to_module.cc:109-114 | every kept line is nonempty and does not wrap, which is what AssignLinesToFunctions relies on |
| LineProgram.ReadSourceLines | src/common/dwarf_cu_to_module.cc:1752-1773 | handing the lines of a line program to the compilation unit keeps what AssignLinesToFunctions requires; a missing section, under both names, or an offset outside it is reported and changes nothing |
| ContainedRanges.StoreCorrect | src/processor/contained_range_map-inl.h:57-147 | StoreRange succeeds exactly when the range is nonempty, does not wrap, equals no stored range and partially overlaps none; then it adds exactly that range |
| ContainedRanges.StoreInStores | src/processor/contained_range_map-inl.h:79-146 | below any node the recursion stores a range exactly when it is compatible with all stored ranges, and keeps siblings disjoint and children strictly inside their parents |
| ContainedRanges.LocateCorrect | src/processor/contained_range_map-inl.h:75-123 | the two lower bounds decide rightly between refusing, descending and regrouping |
| ContainedRanges.RegroupCorrect | src/processor/contained_range_map-inl.h:125-146 | moving the enclosed children below the new range keeps the tree well formed and adds one range |
| ContainedRanges.RetrieveCorrect | src/processor/contained_range_map-inl.h:151-178 | RetrieveRange returns the entry of the smallest stored range containing the address, and fails exactly when none contains it |
| ContainedRanges.ItemsLaminar | src/processor/contained_range_map.h:39-42 | any two stored ranges are disjoint or one lies inside the other |
| ContainedRanges.Canonical | src/processor/contained_range_map.h:34-37 | a tree is determined by the set of ranges it holds |
| ContainedRanges.StoreAllCorrect | src/processor/contained_range_map-inl.h:75-146 | storing a laminar family of distinct ranges one after another always succeeds and holds exactly the family |
| ContainedRanges.OrderInsensitive | src/processor/contained_range_map.h:34-37 | two orders of storing the same laminar family give the same tree |
| ContainedRanges.RunCorrect | src/processor/contained_range_map-inl.h:57-147 | every tree reachable by any sequence of accepted and refused calls is well formed, loses nothing and holds only what was asked for |
| ContainedRangeMaps.ContainedRangeMap.StoreRange | src/processor/contained_range_map-inl.h:57-147 | the in-place update of the linked maps computes the stored tree, and a refused call leaves it unchanged |
| ContainedRangeMaps.ContainedRangeMap.StoreBelow | src/processor/contained_range_map-inl.h:94-95 | descending into a child changes that child's tree only |
| ContainedRangeMaps.ContainedRangeMap.TakeOver | src/processor/contained_range_map-inl.h:125-146 | erase and insert hand the enclosed children over to the new node |
| ContainedRangeMaps.ContainedRangeMap.FindPlace | src/processor/contained_range_map-inl.h:75-116 | the iterators of the code give the place of the specification |
| ContainedRangeMaps.ContainedRangeMap.KeyLowerBound | src/processor/contained_range_map-inl.h:75-76 | lower_bound on the map of children |
| ContainedRangeMaps.ContainedRangeMap.RetrieveRange | src/processor/contained_range_map-inl.h:151-178 | the recursive query on the objects equals the lookup on the tree |
| ContainedRangeMaps.ContainedRangeMap.Clear | src/processor/contained_range_map-inl.h:182-191 | clearing leaves an empty tree |
| RangeSerializer.SizeOfCorrect | src/processor/map_serializers-inl.h:189-209 | SizeOf is the length of what is written, for every tree |
| RangeSerializer.KidsSizeCorrect | src/processor/map_serializers-inl.h:199-207 | offset table, key table and child records add up to the counted size |
| RangeSerializer.Write | src/processor/map_serializers-inl.h:212-246 | Write fills exactly the bytes of the encoding from its destination and returns the end |
| RangeSerializer.WriteKids | src/processor/map_serializers-inl.h:224-244 | count, offset table, key table and child records tile the space of the map without gap |
| RangeSerializer.WriteKid | src/processor/map_serializers-inl.h:237-243 | each child fills its slot in the offset table, its key and its record, and nothing else |
| MapLayout.TableEntries | src/processor/map_serializers-inl.h:228-240 | entry i of the offset table is where record i starts, entry i of the key table is key i |
| MapLayout.FilledAll | src/processor/map_serializers-inl.h:228-244 | filling the three tables side by side, entry by entry, is one write of the whole map |
| StaticRanges.MapCount | src/processor/static_map-inl.h:46-50 | the first word of a serialized map is the number of records modulo 2^32, so it reads back exactly if that is smaller |
| StaticRanges.MapKey | src/processor/static_map-inl.h:165-172 | key i of a serialized map reads back at its place in the key table |
| StaticRanges.MapValue | src/processor/static_map-inl.h:52-57 | the offset read for record i leads to it exactly if it starts below 2^32 in the map |
| StaticRanges.StaticLowerBound | src/processor/static_map-inl.h:81-100 | the binary search over the key table in memory finds the lower bound |
| StaticRanges.StaticRetrieve | src/processor/static_contained_range_map-inl.h:58-88 | looking an address up in the bytes gives what looking it up in the serialized tree gives, whenever counts, sizes and offsets fit 32 bits |
| StaticRanges.SerializeThenRetrieve | src/processor/map_serializers-inl.h:249-262 | a buffer of SizeOf bytes, filled by Write and looked up in place, answers as the tree does |
| StaticRanges.BytesDetermineTree | src/processor/map_serializers-inl.h:212-246 | the encoding is injective: the bytes determine base, entry and all descendants |
| StaticRanges.ReadEncoded | src/processor/map_serializers-inl.h:212-246 | round trip: reading the whole tree back from the bytes gives the tree that was serialized |
| StaticRanges.SmallFits | src/processor/map_serializers-inl.h:249-262 | in a tree of fewer than 2^32 bytes all counts, sizes and offsets fit |
| LinkedPtrs.RunDeletesOnce | src/processor/linked_ptr.h:95-171 | over every run of create, copy, assign, reset, sole-owner release and destroy, once no pointer is left each owned object has been deleted exactly once, and at no time was a held object deleted |
| LinkedPtrs.StepSound | src/processor/linked_ptr.h:95-171 | each operation keeps: held objects are owned and undeleted, deleted ones are distinct and no longer held |
| LinkedPtrs.Walk | src/processor/linked_ptr.h:75-86 | the walk around a circle ends at the predecessor |
| LinkedPtrs.Unlink | src/processor/linked_ptr.h:82-88 | depart on a circle of two or more leaves a circle of the others |
| LinkedPtrs.Join | src/processor/linked_ptr.h:73-78 | join splices the new link into the circle |
| LinkedPtrs.PartitionUpdate | src/processor/linked_ptr.h:73-88 | changing one circle keeps the partition of the links into disjoint circles that share a value |
| LinkedPtrs.Pointers.Depart | src/processor/linked_ptr.h:155-157 | leaving a circle deletes the object exactly when the pointer was the last one |
| LinkedPtrs.Pointers.Capture | src/processor/linked_ptr.h:159-162 | taking over a raw pointer starts a circle of one |
| LinkedPtrs.Pointers.CopyFrom | src/processor/linked_ptr.h:164-170 | copying joins the circle of the value; null pointers stay alone |
| LinkedPtrs.Pointers.Create | src/processor/linked_ptr.h:101 | the new pointer holds the given object; no other pointer changes and nothing is deleted |
| LinkedPtrs.Pointers.Copy | src/processor/linked_ptr.h:105-106 | the copy holds the object of the original; no other pointer changes and nothing is deleted |
| LinkedPtrs.Pointers.Assign | src/processor/linked_ptr.h:109-121 | the pointer holds the other's object, also when both are one; its former object is deleted exactly if no other pointer held it, and no other pointer changes |
| LinkedPtrs.Pointers.Reset | src/processor/linked_ptr.h:124 | the pointer holds the given object; its former one is deleted exactly if no other pointer held it, and no other pointer changes |
| LinkedPtrs.Pointers.Release | src/processor/linked_ptr.h:128-135 | release by a sole owner returns the object and leaves null, without deleting; no other pointer changes |
| LinkedPtrs.Pointers.Destroy | src/processor/linked_ptr.h:102 | the pointer is gone; its object is deleted exactly if no other pointer held it, and no other pointer changes |
| LinkedPtrs.Pointers.LeaveDeletes | src/processor/linked_ptr.h:155-157 | what leaving deletes, told from the values of the live pointers: the object if no other holds it, else nothing |
| CfiRules.Parse | src/processor/cfi_frame_info.cc:126-171 | the token loop of CFIRuleParser with the frame-info handler computes the parse of the specification, failures included |
| CfiRules.RulesRoundTrip | src/processor/cfi_frame_info.cc:126-171 | a written rule list with well-formed names and expressions parses successfully and sets exactly its rules, on top of any rules before |
| CfiRules.ParsesExactly | src/processor/cfi_frame_info.cc:126-171 | the text of rules with clean names, each with a well-formed expression or none, parses exactly when there are rules and none lacks its expression; then it sets exactly these |
| CfiRules.MissingFails | src/processor/cfi_frame_info.cc:165-171 | a rule without an expression makes the parser fail wherever it stands |
| CfiRules.Serialize | src/processor/cfi_frame_info.cc:104-124 | Serialize writes .cfa, .ra and the register rules with single spaces between |
| CfiRules.SerializeRoundTrip | src/processor/cfi_frame_info.cc:104-171 | parsing what Serialize writes rebuilds the rules, whenever there is one and all are well formed |
| CfiRules.ApplyRegisters | src/processor/cfi_frame_info.cc:181-184 | register rules in map order rebuild the register map |
| CfiRules.WriteRuleMap | src/common/module.cc:197-205 | a rule map is written as its rules with single spaces between |
| CfiRecords.WriteEntries | src/common/module.cc:299-325 | the STACK CFI part of Write prints one INIT line per entry and one line per change, in order |
| CfiRecords.WriteEntry | src/common/module.cc:304-324 | the lines of one entry |
| RangeMaps.StoreCorrect | src/processor/range_map-inl.h:50-114 | StoreRange succeeds exactly for a nonempty range that does not wrap and overlaps no stored one, keeps order and adds exactly that range |
| RangeMaps.RetrieveCorrect | src/processor/range_map-inl.h:118-143 | RetrieveRange finds the one range that contains the address, and nothing otherwise |
| SymbolModules.SymbolModule.ParseCFIFrameInfo | src/processor/basic_source_line_resolver.cc:657-690 | splitting a record with strtok_r, reading addresses with strtoul and storing it updates both tables as specified; malformed records change nothing and fail |
| SymbolModules.SymbolModule.Load | src/processor/basic_source_line_resolver.cc:128-189 | the loop over the text loads the STACK CFI records, counts every line that is an error, of any kind, and stops after more than 100 |
| SymbolModules.SymbolModule.ParseStackInfo | src/processor/basic_source_line_resolver.cc:601-655 | a record for call frame information is parsed from behind its second field, or from the text behind the line if there is nothing there |
| SymbolModules.BareLine | src/processor/basic_source_line_resolver.cc:608-612 | a line that is exactly STACK CFI takes its record from the text behind it, of which only the first field is then left to load |
| SymbolModules.LoadTextLines | src/processor/basic_source_line_resolver.cc:128-189 | without such lines, loading a text is loading its lines one by one |
| SymbolModules.FieldEndIs | src/processor/basic_source_line_resolver.cc:608-612 | where strtok_r stops: behind separators and one field, at a separator or the end |
| Text.StrToULReads | src/processor/basic_source_line_resolver.cc:677-678 | strtoul on blanks, a sign, a prefix and hexadecimal digits: their value, negated modulo 2^64 for a minus sign, or the largest number if it does not fit |
| SymbolModules.SymbolModule.FindCFIFrameInfo | src/processor/basic_source_line_resolver.cc:504-536 | the initial rules of the range and every delta from its start up to the address are applied in order |
| SymbolModules.SymbolModule.ApplyRange | src/processor/basic_source_line_resolver.cc:525-533 | lower_bound and the loop apply exactly the deltas between the range's start and the address |
| SymbolModules.PutDeltaCorrect | src/processor/basic_source_line_resolver.cc:688 | storing a delta keeps the map in order and replaces one at the same address |
| CfiPipeline.ReadInit | src/processor/basic_source_line_resolver.cc:657-681 | an INIT line as Write prints it stores the entry's range under its relative address, and is an error if the entry has no initial rules |
| CfiPipeline.ReadChange | src/processor/basic_source_line_resolver.cc:683-689 | a change line as Write prints it files the rules under the relative address |
| CfiPipeline.InitRecord | src/processor/basic_source_line_resolver.cc:657-681 | the words STACK, CFI and INIT, two hexadecimal numbers and any text store that text for the range, and without the text are an error |
| CfiPipeline.ChangeRecord | src/processor/basic_source_line_resolver.cc:683-689 | the words STACK and CFI, a hexadecimal number and any text file that text under the number |
| CfiPipeline.LoadEntries | src/processor/basic_source_line_resolver.cc:657-690 | loading the records of disjoint entries leaves tables that hold the ranges and changes of those before the one error too many, and nothing else |
| CfiPipeline.ReachedExactly | src/processor/basic_source_line_resolver.cc:184-187 | entry k is read exactly if the errors before, and the INIT lines without rules up to its own, are at most 100 |
| CfiPipeline.LoadOthers | src/processor/basic_source_line_resolver.cc:134-187 | records of other kinds leave both tables alone; if more than 100 of them are errors nothing after them is loaded, and otherwise loading goes on with that many errors |
| CfiPipeline.OwnDeltas | src/processor/basic_source_line_resolver.cc:525-533 | between the start of an entry and an address in it lie exactly the entry's own changes up to there |
| CfiPipeline.FindInEntry | src/processor/basic_source_line_resolver.cc:504-536 | from such tables, an address in an entry gets the initial rules overridden by every change at or before it, or nothing exactly if the initial rules are missing or one lacks its expression |
| CfiPipeline.WhereFound | src/processor/basic_source_line_resolver.cc:510-517 | rules are found only at addresses in entries that have initial rules |
| CfiPipeline.WriteThenFind | src/common/module.h:189-203 | end to end: disjoint entries written after other records, any of which may be errors, and loaded: at every address of an entry FindCFIFrameInfo gives the meaning that the entry's declaration promises exactly if at most 100 errors precede it and its initial rules are complete, and nothing otherwise or outside |
| CfiPipeline.WriteLoadAndFind | src/common/module.cc:299-325 | the same for the methods: printing entries, loading the text and FindCFIFrameInfo, one after another |
| RuleMaps.LookupPut | src/common/dwarf_cfi_to_module.cc:204-209 | assigning to a rule map sets that name and no other |
| RuleMaps.PutRuleOrdered | src/common/dwarf_cfi_to_module.cc:204-209 | the map stays ordered by name, so each name has one rule |
| RuleMaps.NameLessIs | src/common/module.h:180 | names are ordered lexicographically |
| RuleMaps.RuleOfApplied | src/common/module.h:198-202 | applying an ordered rule map gives each name in it its rule and leaves the others alone |
| CfiCalls.LatestPut | src/common/dwarf_cfi_to_module.cc:204-209 | filing a rule under an address overrides exactly the rules that later addresses do not |
| CfiCalls.BuildMeans | src/common/dwarf_cfi_to_module.cc:145-267 | whatever the order of the callbacks, the collected entry gives each register, at every address, the rule reported last for the nearest address at or before it; initial rules count as nearest last, even behind a report for an address below the start |
| CfiCalls.BuildApplies | src/common/dwarf_cfi_to_module.cc:192-210 | when rules are recorded in order of address, the entry's meaning at an address is the recorded rules up to there applied in turn |
| CfiReports.RecordedRulesGood | src/common/dwarf_cfi_to_module.cc:218-247 | every rule recorded for a callback survives writing and parsing, given register names that are empty or single words |
| CfiReports.DecimalRead | src/common/dwarf_cfi_to_module.cc:225-239 | the text written for an offset, read as an optional minus sign and decimal digits, is that offset, for every integer |
| CfiReports.NameNames | src/common/dwarf_cfi_to_module.cc:172-190 | the name of a register is .cfa, .ra, its name in the table if that is not empty, or unnamed_register and decimal digits that read as its number |
| CfiReports.FrameComplete | src/common/dwarf_cfi_to_module.cc:161-167 | the entry collected for a frame has initial rules exactly if the return register's number is in the table or a rule is reported at the start; they are complete exactly if, besides, that register has a name or a rule for the return address is reported at the start |
| CfiReports.BuildInitial | src/common/dwarf_cfi_to_module.cc:204-206 | the initial rule for a name is the last one recorded at the start |
| CfiHandler.BuildGood | src/common/dwarf_cfi_to_module.cc:145-267 | the entry collected from any callbacks for addresses in a nonempty range meets what writing and loading need |
| CfiHandler.ReportThenFind | src/common/dwarf_cfi_to_module.cc:145-267 | end to end, from the callbacks: frames reported for disjoint ranges, collected, written after other records and loaded; at an address of frame k something is found exactly if at most 100 errors precede and the frame's initial rules are complete. Then each register has the rule recorded last for the nearest address. If the callback in force set it, its words are what the callback says: the name of a register, and for an offset a word that reads as it, a plus sign, and a caret exactly if the register is saved in memory. The rule is what the callbacks mean exactly unless it is stale: the callback in force cannot be expressed, and an earlier one set a rule. Callbacks in order of address are as if applied in turn, those that cannot be expressed leaving no rule, exactly if no rule is stale |
| CfiMeaning.StaleExactly | src/common/dwarf_cfi_to_module.cc:212-261 | what is recorded for a register is what the callbacks about it mean, exactly unless the callback in force is UndefinedRule, ExpressionRule or ValExpressionRule and some rule was recorded before |
| CfiMeaning.ReportAndRule | src/common/dwarf_cfi_to_module.cc:192-261 | the rule in force is that of the callback in force if that was recorded, and otherwise of one that ranks no higher |
| CfiMeaning.ExprSays | src/common/dwarf_cfi_to_module.cc:218-247 | the rule recorded for a callback, split into words, says what the callback says: the register named, the offset as a number, and a caret exactly for a register saved in memory |
| CfiMeaning.RulingSaid | src/common/dwarf_cfi_to_module.cc:192-247 | so does the rule in force at an address whenever the callback in force set it |
| CfiMeaning.AppliesUnlessStale | src/common/dwarf/dwarf2reader.h:839-860 | for callbacks in order of address, the entry at an address is the callbacks up to there applied in turn exactly if no rule is stale |
| CfiHandler.StaleFound | src/common/dwarf_cfi_to_module.cc:212-261 | in a frame with complete initial rules, a stale rule is found, and it is not what the callbacks mean |
| CfiHandler.StaleExample | src/common/dwarf/dwarf2reader.h:857-858 | a register saved at the start and undefined from 20 on, whose rule for the start is still in force at 24 |
| CfiHandler.EmptyNameNotFound | src/common/dwarf_cfi_to_module.cc:166-167 | a return register in the table with an empty name, and no rule for the return address at the start: nothing is found in the whole frame |
| CfiHandler.EmptyNameExample | src/common/dwarf_cfi_to_module.cc:166-167 | such a frame |
| CfiHandler.DwarfCFIToModule.BeginEntry | src/common/dwarf_cfi_to_module.cc:145-170 | a new entry starts with a rule for the return address whenever the number of its register is in the table, even if its name there is empty |
| CfiHandler.DwarfCFIToModule.RegisterName | src/common/dwarf_cfi_to_module.cc:172-190 | names of registers, .cfa and .ra; an unnamed register is reported, and its name ends in digits that read as its number |
| CfiHandler.DwarfCFIToModule.Record | src/common/dwarf_cfi_to_module.cc:192-210 | a rule joins the initial rules or the changes, and the entry stays the one that the calls collect |
| CfiHandler.DwarfCFIToModule.SameValueRule | src/common/dwarf_cfi_to_module.cc:218-223 | the rule recorded for an unchanged register |
| CfiHandler.DwarfCFIToModule.OffsetRule | src/common/dwarf_cfi_to_module.cc:225-231 | the rule recorded for a register saved at an offset: the base, digits that read as the offset, + and ^ |
| CfiHandler.DwarfCFIToModule.ValOffsetRule | src/common/dwarf_cfi_to_module.cc:233-239 | the rule recorded for a register that is a sum: the base, digits that read as the offset, and + |
| CfiHandler.DwarfCFIToModule.RegisterRule | src/common/dwarf_cfi_to_module.cc:241-247 | the rule recorded for a register saved in another |
| CfiHandler.DwarfCFIToModule.UndefinedRule | src/common/dwarf_cfi_to_module.cc:212-216 | an undefined register is reported and records nothing |
| CfiHandler.DwarfCFIToModule.ExpressionRule | src/common/dwarf_cfi_to_module.cc:249-261 | a DWARF expression is reported and records nothing |
| CfiHandler.DwarfCFIToModule.End | src/common/dwarf_cfi_to_module.cc:263-267 | the entry handed to the module means, at every address and for every register, what the recorded rules say |
| CfiHandler.DwarfCFIToModule.Describe | src/common/dwarf_cfi_to_module.cc:145-267 | the callbacks for a frame, from Entry to End, add to the module the entry that its reports call for |
| CfiHandler.DwarfCFIToModule.Handle | src/common/dwarf_cfi_to_module.cc:212-261 | each kind of callback records the rule that its report calls for, or none |
| Utf.LegalIsScalar | src/common/convert_UTF.c:297-320 | a legal UTF-8 sequence decodes without underflow to a Unicode scalar value, so the branches for surrogates and for larger values are dead |
| UtfProofs.LegalExactly | src/common/convert_UTF.c:297-320 | what isLegalUTF8 accepts is the encoding of the value it decodes to exactly when it is not a sequence with lead ED or F4 and second byte below 80 |
| UtfProofs.Encode8Legal | src/common/convert_UTF.c:297-320 | isLegalUTF8 accepts the encoding of every scalar value, with the length its lead byte says |
| UtfProofs.LaxExample | src/common/convert_UTF.c:307-314 | ED 00 80 is accepted and read as B000, whose encoding is EB 80 80 |
| UtfProofs.Read8Encoded | src/common/convert_UTF.c:344-365 | reading the encoding of a scalar value yields the value and its length, whatever follows |
| UtfProofs.Read16Strict | src/common/convert_UTF.c:228-256 | a strict read of UTF-16 consumes exactly the encoding of the scalar value it returns |
| UtfProofs.ConvertsEncoded | src/common/convert_UTF.c:66-519 | each of the six conversions, strict or lenient, maps the encoding of any scalar values in one form to their encoding in the other and consumes all of it |
| UtfProofs.RoundTrip | src/common/convert_UTF.c:66-519 | two conversions in a row lose nothing: UTF-32 to UTF-8 or UTF-16 and back is the identity on scalar values |
| UtfProofs.ThroughUtf32 | src/common/convert_UTF.c:217-282 | on every UTF-16 source, legal or not, strict conversion to UTF-8 has the same result, consumes the same units and writes the same bytes as going through UTF-32 |
| UtfProofs.StopsOnBoundary | src/common/convert_UTF.c:217-282 | whatever the result, a strict conversion from UTF-16 has consumed the encoding of some scalar values and written their encoding |
| UtfProofs.Resume | src/common/convert_UTF.c:266-270 | a conversion that ran out of target can be taken up where it stopped, and more room changes nothing otherwise |
| UtfProofs.PiecesMakeWhole | src/common/convert_UTF.c:217-282 | converting into successive targets of at least four units, of any sizes, gives what one large target gives |
| UtfProofs.ConvertBound | src/common/convert_UTF.c:66-519 | on every source, output stays within the factor of the conversion: one unit per UTF-8 byte, three bytes per UTF-16 unit |
| UtfProofs.ConvertFits | src/common/string_conversion.cc:41-56 | a target of that size is never exhausted |
| UtfProofs.FromUtf8 | src/common/convert_UTF.c:338-406 | a conversion from UTF-8 has consumed the encoding of what it wrote exactly when no byte ED or F4 in it is followed by a byte below 80 |
| UtfProofs.WholeUtf8 | src/common/convert_UTF.c:338-406 | a UTF-8 source that is converted with success is the encoding of what was written exactly when no byte ED or F4 in it is followed by a byte below 80 |
| UtfProofs.FromUtf32 | src/common/convert_UTF.c:66-110 | a strict conversion from UTF-32 has written the encoding of what it consumed exactly when it consumed no value above 10FFFF |
| UtfProofs.WholeUtf32 | src/common/convert_UTF.c:66-110 | a strict conversion from UTF-32 succeeds exactly on scalar values with room for their encoding, which it then writes |
| UtfProofs.IllegalValue | src/common/convert_UTF.h:73-77 | when a strict conversion from UTF-32 returns sourceIllegal, the source points to an illegal value, a surrogate, exactly if there is a surrogate in the source; otherwise it points to the end |
| UtfProofs.ResultFrom32 | src/common/convert_UTF.h:42-45 | the result of a strict conversion from UTF-32, told from source and room: targetExhausted exactly if there is not room before each value up to the first surrogate, otherwise sourceIllegal exactly if some value is not scalar; so the first problem met is not always the one indicated |
| UtfProofs.IllegalPosition | src/common/convert_UTF.h:73-77 | sourceIllegal from UTF-8 or UTF-16 leaves the source at a sequence that the routine refuses as illegal |
| UtfProofs.OKConsumesAll | src/common/convert_UTF.h:51-53 | conversionOK means that the whole source was consumed |
| UtfProofs.DroppedExample | src/common/convert_UTF.c:90-92 | strict conversion to UTF-16 drops 110000, reports it at the end, and not at all when the target runs out |
| UtfProofs.LenientFrom32 | src/common/convert_UTF.c:66-519 | with room, a lenient conversion from UTF-32 consumes every value and writes each that can be encoded, and the replacement character for the others; it succeeds, except that to UTF-8 values above 10FFFF are reported |
| UtfProofs.LenientFrom16 | src/common/convert_UTF.c:217-282 | a lenient conversion from UTF-16 never finds the source illegal; it consumes and writes the same code points, lone halves of pairs among them, until the target is full, one half is left at the end, or all is done |
| UtfProofs.ReplacementBytes | src/common/convert_UTF.h:99 | the replacement character is EF BF BD in UTF-8 and FFFD in UTF-16 |
| UtfProofs.TrailingOnes | src/common/convert_UTF.c:177-186 | the table of trailing bytes: a lead byte announces as many as it has leading one bits, less one, and at most five |
| ConvertUtf.TrailBits | src/common/convert_UTF.c:271-276 | masking and shifting a trail byte is arithmetic modulo 64 |
| ConvertUtf.ConvertBuffer | src/common/convert_UTF.c:66-519 | the loop of the six routines moves both pointers and fills the target as specified and writes nowhere else, even where the end pointer lies beyond the storage |
| ConvertUtf.Pass32to16 | src/common/convert_UTF.c:71-106 | one pass of ConvertUTF32toUTF16, with its order of checks |
| ConvertUtf.Pass16to32 | src/common/convert_UTF.c:120-156 | one pass of ConvertUTF16toUTF32 |
| ConvertUtf.Pass16to8 | src/common/convert_UTF.c:222-278 | one pass of ConvertUTF16toUTF8 |
| ConvertUtf.Pass8to16 | src/common/convert_UTF.c:343-402 | one pass of ConvertUTF8toUTF16 |
| ConvertUtf.Pass32to8 | src/common/convert_UTF.c:415-454 | one pass of ConvertUTF32toUTF8 |
| ConvertUtf.Pass8to32 | src/common/convert_UTF.c:467-515 | one pass of ConvertUTF8toUTF32 |
| ConvertUtf.PutUTF8 | src/common/convert_UTF.c:271-276 | the fall-through switch that writes bytes backwards writes the encoding of the character |
| ConvertUtf.ReadUTF8 | src/common/convert_UTF.c:344-365 | table lookup, legality check and fall-through sum read one UTF-8 character |
| ConvertUtf.ReadUTF16 | src/common/convert_UTF.c:228-256 | reading a surrogate pair or a single unit, strict or lenient |
| StringConversion.UTF8ToUTF16 | src/common/string_conversion.cc:41-56 | for every input and capacity the storage suffices although the end pointer is computed in bytes; the result is the converted text and a zero, or empty |
| StringConversion.UTF16ToUTF8 | src/common/string_conversion.cc:121-153 | for every source, in either byte order, the storage suffices and the result is a C string read from the converted text and then from what the storage held before; it is the text up to the first zero unit if there is one, and empty when the source is not legal |
| StringConversion.ReadsStorage | src/common/string_conversion.cc:147-150 | for legal text the result depends only on what was written exactly if the source holds a zero unit; otherwise bytes that were never written are appended |
| StringConversion.ZeroWritten | src/common/string_conversion.cc:143-150 | a successful conversion writes a zero exactly if the source holds a zero unit |
| StringConversion.UnterminatedExample | src/common/string_conversion.cc:147-150 | the one letter 41 without a zero unit, read together with what follows it in the buffer |
| StringConversion.UTF8ToUTF16Char | src/common/string_conversion.cc:58-83 | growing the window finds the first character exactly when it is legal and complete within the given length, of which zero counts as one, and writes it padded with zeros |
| StringConversion.ThereAndBack | src/common/string_conversion.cc:41-153 | text without zeros survives UTF8ToUTF16 followed by UTF16ToUTF8, in either byte order |
| StringConversion.SwapTwice | src/common/string_conversion.cc:117-119 | swapping bytes is its own inverse and keeps zeros |
| StringConversion.SwapBytes | src/common/string_conversion.cc:117-119 | swapping exchanges the high and the low byte of a unit |
| Md5.Hash | src/common/md5.cc:10-13 | initializing, updating with any pieces and finishing gives the digest of their concatenation, however the message is cut up |
| Md5.DigestWords | src/common/md5.cc:145-147 | bytes 4i to 4i+3 of a digest, low byte first, are word i of the state after all blocks of the padded message |
| Md5.OutputWords | src/common/md5.cc:145-147 | the words of any state come out in order, each with its low byte first |
| Md5.InitialBytes | src/common/md5.cc:46-51 | the initial words, low byte first, are the bytes of section 3.3 of RFC 1321 |
| Md5.PaddedForm | src/common/md5.cc:106-144 | a padded message is the message, the byte 80, zeros, and its length in bits modulo 2^64 with the low byte first |
| Md5.MD5Context.Update | src/common/md5.cc:61-103 | for any data the state is that of the whole blocks of the message so far, the buffer starts with the rest, and the count is 8n modulo 2^64; so how a message is cut up does not matter |
| Md5.MD5Context.Final | src/common/md5.cc:109-148 | the digest is that of the fold over the message padded as in sections 3.1 and 3.2 of RFC 1321, and the context is cleared |
| Md5.MD5Context.AddBits | src/common/md5.cc:65-70 | adding to the two words with a carry counts bits modulo 2^64, for every length |
| Md5.MD5Context.Feed | src/common/md5.cc:72-103 | filling up a partial block, whole blocks and the rest extend the fold by the data |
| Md5.MD5Context.Blocks | src/common/md5.cc:90-102 | the loop over whole blocks folds them and keeps the rest |
| Md5.MD5Context.Finish | src/common/md5.cc:114-144 | padding in one block or two is the padding of RFC 1321 |
| Md5.FoldConcat | src/common/md5.cc:61-103 | folding a concatenation is folding the first part and then its rest with the second |
| Md5.PaddedLength | src/common/md5.cc:106-144 | padding brings every message to a whole number of blocks with fewer than 64 bytes to spare |
| Md5.PaddingInjective | src/common/md5.cc:106-144 | different messages of fewer than 2^61 bytes are padded differently |
| Md5.CoreFunctions | src/common/md5.cc:152-154 | the optimized F1 and F2 are the functions F and G of section 3.4 of RFC 1321 |
| Md5.CountBytes | src/common/md5.cc:72 | the low word of the count gives the number of bytes in the buffer |
| PageAllocators.PageAllocator.Alloc | src/common/memory.h:74-101 | nothing is handed out, and nothing changes, exactly for an empty request or a failed mapping; otherwise the block starts right behind the last one if it fits in that chunk, and else behind the header of new pages; it is disjoint from all before and lies in one chunk, unless the page count wrapped |
| PageAllocators.PageAllocator.RoomBehind | src/common/memory.h:78 | the test for room in the current page holds exactly if the request fits between the last block and the end of the chunk obtained last |
| PageAllocators.PageAllocator.Fresh | src/common/memory.h:89-101 | the first block in new pages and the offset left in the last page |
| PageAllocators.RoomExactlyIfFits | src/common/memory.h:89-90 | the pages asked for hold header and block if and only if bytes + 16 + page size - 1 does not exceed 64 bits |
| PageAllocators.WrapExample | src/common/memory.h:89-90 | a request for 2^64 - 1 bytes asks for one page |
| PageAllocators.PagesExact | src/common/memory.h:89-90 | without wrapping, as many pages as needed and no more |
| PageAllocators.OffsetExact | src/common/memory.h:95-98 | the offset left is the end of the block in its last page, and zero exactly if the page is full |
| PageAllocators.CarveMore | src/common/memory.h:78-87 | a block behind the mark of the current chunk is apart from every block handed out |
| PageAllocators.NewChunk | src/common/memory.h:133-138 | a chunk put apart by the kernel keeps blocks and chunks disjoint |
| PageAllocators.PageAllocator.OwnsPointer | src/common/memory.h:105-113 | the walk along the headers ends, and answers true exactly for addresses in a chunk |
| PageAllocators.PageAllocator.OwnsBlocks | src/common/memory.h:103-113 | every byte of every block handed out is owned |
| PageAllocators.PageAllocator.GetNPages | src/common/memory.h:116-139 | the headers in memory still lead through all chunks, disjoint and the new one first, to a null pointer; a failed mapping changes nothing |
| PageAllocators.PageAllocator.FreeAll | src/common/memory.h:141-148 | each chunk is unmapped once with its size and nothing else is, and no header is read after its pages are gone |
| PageAllocators.LinkedElsewhere | src/common/memory.h:133-138 | writing or unmapping anything but the headers leaves the list as it was |
| StabsEntries.ByteCursor.Read | src/common/byte_cursor.h:113-139 | reading a signed or unsigned number in either byte order, and running off the end, which is remembered |
| StabsEntries.SignBits | src/common/byte_cursor.h:131-134 | flipping the sign bit and taking it off extends the sign |
| StabsEntries.ByteCursor.CheckAvailable | src/common/byte_cursor.h:236-247 | a read past the end moves the cursor to the end and clears the flag |
| StabsEntries.EntryIterator.constructor | src/common/stabs_reader.cc:48-56 | an iterator starts at the first of the section's entries |
| StabsEntries.EntryIterator.Fetch | src/common/stabs_reader.cc:58-66 | fetching delivers the next entry, or the end when too few bytes are left |
| StabsEntries.EntryIterator.Advance | src/common/stabs_reader.h:155-157 | advancing drops the current entry and no other |
| StabsEntries.DecodeAllEncoded | src/common/stabs_reader.cc:58-66 | entries stored in either byte order, with part of another behind, iterate back to themselves |
| StabsEntries.DecodeAt | src/common/stabs_reader.cc:58-66 | the fields of an entry by position: four bytes of name offset, one of type, one more, two of a signed descriptor, and the value |
| StabsEntries.HighByteFirst | src/common/byte_cursor.h:113-139 | in big-endian order the first byte is the highest |
| StabsEvents.PlanBracketed | src/common/stabs_reader.cc:93-298 | whatever the entries, what they call for is a complete bracketed sequence of externs and units of functions of lines |
| StabsEvents.TakeBracketed | src/common/stabs_reader.cc:93-298 | the calls for one entry lead from the phase of one state to that of the next |
| Stabs.LoadStabs | src/common/linux/dump_symbols.cc:177-200 | end to end, from the bytes of both sections in either byte order: reading ends and succeeds, and symbols, boundaries and functions of the module are told from the entries alone. A function has the name before the colon of its N_FUN entry, the lines of the N_SLINE entries before and in it, and an end at the next N_FUN or N_SO entry; functions are sized and without overlap, the first of those with equal address and name. AddFunction's assertion fails exactly if some N_FUN entry that starts a function, not below its unit, has a name that demangles to nothing up to its colon |
| StabsFunctions.PlanDescribes | src/common/stabs_reader.cc:93-298 | for any entries, what the calls describe is told from the entries by position: which N_FUN entries start a function, its name and address, and for each N_SLINE entry before or in it address, file and number; boundaries and exported symbols likewise |
| StabsFunctions.EndIsBoundary | src/common/stabs_reader.cc:267-297 | the end of a function, which is its start plus the value of an N_FUN entry without a name if that comes next and the value of the next N_FUN or N_SO entry otherwise, is a boundary unless it is zero |
| StabsFunctions.TerminatorExample | src/common/stabs_reader.cc:272-278 | two functions with entries that give their sizes, 20 and 10 hexadecimal |
| StabsFunctions.FunctionsUnnamed | src/common/stabs_to_module.cc:90-117 | the functions of any entries include one without a name exactly if an entry starts one, not below its unit, whose name demangles to nothing up to its colon |
| StabsFunctions.BeforeColonIs | src/common/stabs_reader.cc:225-232 | the name of a function is the longest prefix of the entry's name without a colon |
| Stabs.EntryNamed | src/common/stabs_reader.cc:81-113 | each entry has the stored type, descriptor and value, and a name from the string section at the offset that the N_UNDF entries before it, between units, have set |
| Stabs.CStringIs | src/common/stabs_reader.cc:81-91 | a name is the bytes up to the first zero or the end of the section |
| Stabs.LineNumberStored | src/common/stabs_reader.cc:186-189 | a line number stored in 16 bits comes out again, whatever its sign as a short |
| Stabs.ExportedBits | src/common/stabs_reader.cc:119-120 | the two masks that tell an exported symbol are the arithmetic test on the entry type |
| Stabs.ReadEntries | src/common/stabs_reader.cc:48-91 | walking the bytes of the section delivers exactly its entries, with names looked up at the string offset that the N_UNDF entries so far have set |
| Stabs.UnnamedExample | src/common/module.cc:77-81 | the bytes of a section with a function entry without a name, which meets that condition |
| StabsReaders.StabsReader.Process | src/common/stabs_reader.cc:93-129 | for every entry sequence and handler the calls are bracketed; with as many passes as entries, reading ends having delivered what the entries call for up to the first refusal exactly if that refusal is not of an exported symbol; passes run short only after a refused exported symbol, and repeat its call for ever while it is refused |
| StabsReaders.StabsReader.Pass | src/common/stabs_reader.cc:94-127 | a pass consumes an entry if and only if it is not an exported symbol that the handler refuses |
| StabsReaders.StabsReader.ProcessCompilationUnit | src/common/stabs_reader.cc:131-219 | a unit is reported as the automaton says, at least one entry is consumed, and a refusal stops at once |
| StabsReaders.StabsReader.UnitStart | src/common/stabs_reader.cc:134-168 | directory entry, stray end marker and start of a unit |
| StabsReaders.StabsReader.UnitBody | src/common/stabs_reader.cc:174-199 | lines before functions are queued, file changes noted, functions processed |
| StabsReaders.StabsReader.ProcessFunction | src/common/stabs_reader.cc:221-298 | a function is reported with queued lines first, its own lines, and its end |
| StabsReaders.StabsReader.ReportQueued | src/common/stabs_reader.cc:237-243 | queued lines are reported in order, each once |
| StabsReaders.StabsReader.FunctionBody | src/common/stabs_reader.cc:245-265 | line addresses are relative to the function |
| StabsReaders.StabsReader.FunctionEnd | src/common/stabs_reader.cc:267-297 | one call ends the function, at its start plus the terminator's value, at the next entry's value, or at zero where the entries end |
| StabsReaders.StabsReader.ProcessExtern | src/common/stabs_reader.cc:300-313 | an exported symbol is consumed exactly when it is taken |
| StabsToModules.StabsToModule.ReceiveAll | src/common/stabs_to_module.cc:68-149 | on the calls of any reader none of the bracketing assertions can fail, and functions, boundaries and symbols are those that the calls describe |
| StabsToModules.StabsToModule.BracketedAsserted | src/common/stabs_to_module.cc:68-149 | on bracketed calls the assertions of every callback hold |
| StabsToModules.StabsToModule.StartCompilationUnit | src/common/stabs_to_module.cc:68-77 | only the source's assertions are required; the state follows the calls |
| StabsToModules.StabsToModule.EndCompilationUnit | src/common/stabs_to_module.cc:79-88 | only the source's assertions are required; the state follows the calls |
| StabsToModules.StabsToModule.StartFunction | src/common/stabs_to_module.cc:90-101 | only the source's assertion is required, inside a unit or not; the start is a boundary |
| StabsToModules.StabsToModule.EndFunction | src/common/stabs_to_module.cc:103-117 | functions that start before their unit are dropped; a known end is a boundary |
| StabsToModules.StabsToModule.Line | src/common/stabs_to_module.cc:119-133 | both assertions are preconditions; a line gets the file it names |
| StabsToModules.StabsToModule.Extern | src/common/stabs_to_module.cc:135-149 | at any time, the module keeps the first symbol at each address |
| StabsToModules.ExternNames | src/common/stabs_to_module.cc:135-146 | a name that starts with __Z is demangled without its first underscore; any other loses one underscore, if it starts with one, and nothing else |
| StabsToModules.StabsToModule.Finalize | src/common/stabs_to_module.cc:158-198 | functions come out in address order, each reaching to the nearest boundary behind it, and functions with different start addresses never overlap; the module gets all of them but repetitions of address and name, and its assertion fails exactly if one has no name |
| StabsToModules.StabsToModule.AddFunctions | src/common/module.cc:77-93 | the module keeps the first function of each address and name, and the assertion on names fails exactly if some name is empty |
| StabsToModules.AddAllExactly | src/common/module.cc:77-93 | what the set holds afterwards under an address and name: what it held before, or the first one added |
| StabsToModules.LaidOutUnnamed | src/common/stabs_to_module.cc:158-193 | sorting and sizing neither lose nor make a function without a name |
| StabsToModules.NoOverlap | src/common/stabs_to_module.cc:169-180 | a function that reaches to its boundary ends before any other start |
| StabsToModules.KeptStart | src/common/stabs_to_module.cc:90-101 | every kept function's start is a boundary |
| StabsToModules.SizeLines | src/common/stabs_to_module.cc:182-193 | lines are sorted stably, each reaching to the next and the last to the end of the function |
| StabsToModules.FunctionSize | src/common/stabs_to_module.cc:169-180 | the size reaches the nearest boundary, or is the fallback where there is none |
| StabsToModules.TilesFill | src/common/stabs_to_module.cc:184-193 | lines that lie in the function's range cover every address from the first line to the function's end |
| StabsToModules.TilesAscend | src/common/stabs_to_module.cc:184-193 | and no two of them overlap |
| StabsToModules.UpperBound | src/common/stabs_to_module.cc:170-171 | the binary search finds the first boundary above the address |
| Sorting.StableSort | src/common/stabs_to_module.cc:159-163 | a stable permutation into key order |
| Sorting.OrderingHits | src/common/stabs_to_module.cc:159-163 | an ordering of as many elements as there are leaves none out |
| ConvertUtf.LeadBits | src/common/convert_UTF.c:275 | or-ing the mark into a lead byte is addition |
| ConvertUtf.SurrogateBits | src/common/convert_UTF.c:102-104 | shifting and masking for surrogates is division by 400 hexadecimal with remainder |
| ConvertUtf.Size8 | src/common/convert_UTF.c:257-264 | the number of bytes that the encoding of a character takes |
| ConvertUtf.GatherBytes | src/common/convert_UTF.c:357-364 | the fall-through switch adds up the bytes six bits at a time |
| ConvertUtf.Pass | src/common/convert_UTF.c:66-519 | a pass of any of the six routines takes the step that the specification gives |
| StringConversion.SwapBits | src/common/string_conversion.cc:117-119 | swapping by shifts is swapping by arithmetic |
| StringConversion.SwapAll | src/common/string_conversion.cc:125-136 | the copy of the source has the bytes of every unit swapped |
| Md5.MD5Context.constructor | src/common/md5.cc:46-55 | a new context has the initial state of section 3.3 of RFC 1321 and has counted nothing |
| Md5.MD5Context.Process | src/common/md5.cc:84-88 | completing a block transforms the bytes already there followed by the new ones |
| PageAllocators.PageAllocator.constructor | src/common/memory.h:63-68 | a new allocator has mapped and handed out nothing |
| LinkedPtrs.Pointers.Forget | src/processor/linked_ptr.h:130-135 | becoming null takes a sole owner out of its circle and leaves every other circle alone |
| StabsReaders.StabsReader.SkipDirectory | src/common/stabs_reader.cc:134-145 | an entry whose name ends in a slash is taken as the directory |
| StabsToModules.StabsToModule.Receive | src/common/stabs_to_module.cc:68-149 | each kind of call is received where it may occur |
| StabsToModules.SizeFunction | src/common/stabs_to_module.cc:168-193 | one function and its lines get their sizes |
| StabsToModules.FillSizes | src/common/stabs_to_module.cc:186-192 | sorted lines reach from one to the next and to the end |
| StabsToModules.LayOut | src/common/stabs_to_module.cc:158-193 | sorting and sizing lay the functions out in order and without overlap |
| CfiRecords.WriteInit | src/common/module.cc:305-312 | the INIT line of an entry |
| CfiRecords.WriteChange | src/common/module.cc:317-323 | the line of a change |
| CfiRules.AddRule | src/processor/cfi_frame_info.cc:110-120 | a rule is appended after a space unless it is the first |

## Left out

- LineAssignment.CompilationUnit.AssignLinesToFunctions: std::sort is modelled as a stable sort; for overlapping input the source's order among equal addresses is unspecified, and only what holds for every order is claimed.
- LineProgram.DwarfLineToModule.DefineFile: FindFile is a parameter, and the warning about unknown directories is not modelled.
- ContainedRangeMaps.ContainedRangeMap.Clear: does not model freeing the children; a missing map of children and an empty one are the same.
- RangeSerializer.Write: entries are byte strings of known length, and the host is little-endian.
- StaticRanges.SerializeThenRetrieve: for trees of fewer than 2^32 bytes, since Serialize cuts the size of its buffer to 32 bits; ValidateInMemoryStructure is not modelled.
- LinkedPtrs.Pointers.Release: for a sole owner, as the source requires; pointers of different types to one object are not modelled.
- CfiPipeline.WriteThenFind: changes have at least one rule and complete ones, as those collected by the handler do; names and expressions are words without white space, and ranges are nonempty, do not wrap and do not overlap.
- CfiHandler.ReportThenFind: reports are for addresses inside their frame, and register names are empty or single words that do not end in a colon.
- SymbolModules.SymbolModule.Load: which lines of other kinds, and STACK WIN lines, are errors is a parameter; the text is the buffer without its terminating zero, behind which nothing is read.
- CfiHandler.DwarfCFIToModule.ExpressionRule: stands for ExpressionRule and ValExpressionRule, which do the same; the expression itself is not looked at.
- ConvertUtf.ConvertBuffer: one loop with a pass per conversion stands for the six routines, whose loops have the same shape; masks and shifts are written as arithmetic, with the bit-level equalities stated beside.
- StringConversion.UTF8ToUTF16Char: there is at least one byte, which the code reads even when the given length is zero.
- StringConversion.UTF16ToUTF8: what the new buffer and the memory behind it hold is a parameter.
- Md5.MD5Context.Update: the 64 steps of MD5Transform are a function parameter, and byteReverse is that of a little-endian host.
- PageAllocators.PageAllocator.Alloc: what mmap answers is a parameter, constrained to memory apart from what is in use; PageStdAllocator and wasteful_vector are not modelled.
- StabsReaders.StabsReader.Process: takes a bound on the number of passes, because the source does not end while an exported symbol is refused; names are looked up in a walk before, as the sections tell them.
- StabsEntries.ByteCursor.Read: for a result type that is wide enough, and signed for signed numbers.
- StabsToModules.StabsToModule.Finalize: the functions and their lines are values; demangling is a parameter, and a failed assertion is an output.
- EvaluateDwarfExpression, ParseFuncParam and the type names of DwarfCUToModule are not modelled.
- FindCallerRegs, LookupAddress and FindWindowsFrameInfo are not modelled; they rest on expression evaluation and on records left out above.
- The std::map and RangeMap serializers would repeat the layout of the contained range map without its recursion.
- UTF32ToUTF16 and the MDString writers depend on the width of wchar_t.
- Minidump reading and writing, exploitability analysis, the disassembler and the platform handlers are not modelled.
- Files, streams that fail, logging and warnings on stderr are not modelled, except where a warning is a reported event.
