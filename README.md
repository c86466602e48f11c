# kernel-analyzer memory model

This project models the memory-model core of kernel-analyzer's field-sensitive
Andersen points-to analysis and proves properties of it. The core has four parts:

- **Struct flattening** (`flatten.dfy`, `structanalyzer.dfy`). `StructInfo` and
  `StructAnalyzer` turn every struct type into a flat list of leaf fields. Each
  record keeps parallel flag vectors, a map from original member index to
  flattened index (`offsetMap`), element types keyed by flattened index, and the
  transitive set of (container, byte offset) back-edges. A global counter keeps
  the largest flattened field count. Records are memoized by type and by scope
  name.
- **Node arena** (`nodefactory.dfy`). `AndersNodeFactory` keeps an append-only
  sequence of value and object nodes.
  - Five sentinels sit at ids 0..4.
  - The fields of one object take consecutive ids, and each field node records
    its offset.
  - A union-find runs over `mergeTarget`, with path compression.
  - Constant expressions resolve recursively to nodes, and constant GEP nodes
    are memoized.
- **Points-to set** (`ptsset.dfy`). `AndersPtsSet` is a set of node ids.
- **Offset resolver and populator** (`offsetresolver.dfy`, `populate.dfy`).
  - `getGEPOffset` folds a constant GEP chain into one byte offset.
  - `offsetToFieldNum` turns a byte offset into a flattened field index.
  - The populator creates the nodes of every global, function, argument,
    instruction and allocation of every module. It expands each allocation into
    a run of consecutive object nodes.

`llvm.dfy` holds the slice of LLVM IR the core consumes:
- types, as a datatype;
- the data layout, as three given functions (scalar size, struct size, member
  offset) from which alloc size, containing element and indexed offset are
  derived as LLVM derives them;
- constants, values and a module's globals and functions.

Stateful parts are classes whose methods state the complete new state:
`StructInfo`, `StructAnalyzer`, `AndersNodeFactory` and `AndersPtsSet`. Each
method is proved against a specification function, and the properties the
source promises are lemmas over those functions:
- `Build`/`Final` for flattening;
- `Descend`/`FieldNum` for the offset resolver;
- `GEPOffset` for GEP offsets;
- `ConstValueNode` for constant resolution;
- `RunEnd`/`ObjectRun` for object runs;
- `Root`/`Follow` for the union-find;
- `Walk`/`ReachedIn` for container back-edges.

Source assertions and `llvm_unreachable`s that a run can reach are modelled as
`Err(fault)` results (datatype `Llvm.Fault`). The few that only guard a
caller's obligation are preconditions; "## Left out" lists them.

## Model

| member | source | states |
|---|---|---|
| PtsSet.AndersPtsSet.constructor | src/lib/PtsSet.h:8-10 | a new points-to set is empty |
| PtsSet.AndersPtsSet.Has | src/lib/PtsSet.h:15-17 | true exactly when the id is in the set |
| PtsSet.AndersPtsSet.Insert | src/lib/PtsSet.h:19-21 | adds the id; returns true exactly when it was absent |
| PtsSet.AndersPtsSet.InsertRange | src/lib/PtsSet.h:23-28 | adds every id of the range; returns true exactly when some id was absent |
| PtsSet.AndersPtsSet.Reset | src/lib/PtsSet.h:30-32 | removes exactly that id |
| PtsSet.AndersPtsSet.Contains | src/lib/PtsSet.h:35-37 | true exactly when the other set is a subset; neither set changes |
| PtsSet.AndersPtsSet.IntersectWith | src/lib/PtsSet.h:40-42 | true exactly when the sets share an id; neither set changes |
| PtsSet.AndersPtsSet.UnionWith | src/lib/PtsSet.h:45-47 | the set becomes the union; returns true exactly when it grew; afterwards it contains the other |
| PtsSet.AndersPtsSet.Clear | src/lib/PtsSet.h:49-51 | the set becomes empty |
| PtsSet.AndersPtsSet.GetSize | src/lib/PtsSet.h:53-55 | the number of ids |
| PtsSet.AndersPtsSet.IsEmpty | src/lib/PtsSet.h:57-59 | true exactly when the set has no ids, that is when its size is 0 |
| PtsSet.AndersPtsSet.Equals | src/lib/PtsSet.h:65-67 | set equality |
| PtsSet.AndersPtsSet.NotEquals | src/lib/PtsSet.h:61-63 | the negation of set equality |
| Flatten.StructInfo.constructor | src/lib/StructAnalyzer.h:16-54 | a new record has empty vectors, no element types, no containers, alloc size 0 and is not finalized |
| Flatten.StructInfo.AddOffsetMap | src/lib/StructAnalyzer.h:56 | appends one entry to `offsetMap` |
| Flatten.StructInfo.AddField | src/lib/StructAnalyzer.h:57-63 | appends exactly one entry to each of the four parallel vectors, so equal lengths stay equal |
| Flatten.StructInfo.AddFieldOffset | src/lib/StructAnalyzer.h:64 | appends one byte offset |
| Flatten.StructInfo.AppendFields | src/lib/StructAnalyzer.h:66-75 | appends the nested record's vectors; its field sizes are skipped when its count is 0 |
| Flatten.StructInfo.AppendFieldOffset | src/lib/StructAnalyzer.h:76-83 | appends base + o for every non-zero nested offset o, where base is the last recorded offset; zero offsets are skipped |
| Flatten.StructInfo.AddElementType | src/lib/StructAnalyzer.h:84 | adds the type to the set under that key and to nothing else |
| Flatten.StructInfo.AppendElementType | src/lib/StructAnalyzer.h:85-90 | each nested key k is merged into key k + current field count; the new keys are the old ones plus the shifted nested ones |
| Flatten.StructInfo.Finalize | src/lib/StructAnalyzer.h:93-107 | requires equal vector lengths; `fieldSize[0]` becomes the flattened count (the vector is resized to 1 when empty); alloc size is the layout's for a sized type and 0 otherwise; sets `finalized` |
| Flatten.StructInfo.GetContainer | src/lib/StructAnalyzer.h:148-155 | returns `st` exactly when (st, offset) is a recorded container, and none otherwise |
| Flatten.Build | src/lib/StructAnalyzer.cc:76-110 | after n members: n offsetMap entries and as many flags of each kind as the flattened count of those members |
| Flatten.Final | src/lib/StructAnalyzer.cc:64-117 | a finished record: one offsetMap entry per member, `fieldSize[0]` equal to the flattened count, and that many flags of each kind |
| Flatten.OffsetMapCounts | src/lib/StructAnalyzer.cc:87-90 | `offsetMap[j]` is the number of flattened fields of members 0..j-1 |
| Flatten.LeafFlags | src/lib/StructAnalyzer.cc:81-107 | a leaf member's array flag is whether it is declared as an array, its pointer flag whether its array-stripped type is a pointer, and its union flag is false |
| Flatten.NestedFields | src/lib/StructAnalyzer.cc:93-105 | a nested struct's flags appear unchanged at that member's offsetMap position |
| Flatten.NoUnionFlags | src/lib/StructAnalyzer.cc:107 | no flattened field ever has its union flag set |
| Flatten.FinalEmptyIff | src/lib/StructAnalyzer.h:129 | the record is empty exactly when it has no flattened fields |
| Flatten.ElementTypeKeysBound | src/lib/StructAnalyzer.h:85-90 | with the corrected shift, every element-type key is at most the flattened count |
| Flatten.ElementTypeKeysAtMember | src/lib/StructAnalyzer.cc:87-103 | with the corrected shift, each member's type sits at its first flattened field, and a nested struct's keys sit shifted by that field |
| Flatten.ExampleFlattening | src/lib/StructAnalyzer.cc:76-115 | a struct of an i32 and a nested {[4 x i8], i32*} flattens to 3 fields with array flags [F,T,F], pointer flags [F,F,T] and offsetMap [0,1] |
| Flatten.ElementTypeKeysAsWritten | src/lib/StructAnalyzer.cc:101-103 | in the source's call order, the same example files a nested type under key 4, beyond its 3 fields |
| Llvm.StripArrays | src/lib/StructAnalyzer.cc:83-84 | the result is not an array |
| Llvm.ElementContaining | src/lib/PointTo.cc:332 | the last member starting at or before the offset (member 0 when none does) |
| StructAnalysis.InfoKeyIn | src/lib/StructAnalyzer.cc:143-162 | the record key looked up: none exactly when neither the type nor its scope representative has a record |
| StructAnalysis.ScopeClashNestsItself | src/lib/StructAnalyzer.cc:49-62 | two named structs with one scope name, the outer nesting the inner: the nested member resolves back to the outer struct itself |
| StructAnalysis.NestedResolvesLower | src/lib/StructAnalyzer.cc:49-62 | under consistent scope names a nested member resolves to a struct with the same members, strictly lower, and never to the struct itself |
| StructAnalysis.ContainerGraph.AboveNamed | src/lib/StructAnalyzer.cc:175-189 | every name getContainer reports is a named, non-anonymous container recorded in the graph |
| StructAnalysis.StructAnalyzer.constructor | src/lib/StructAnalyzer.h:164-193 | an analyzer starts with no records, no scope names and a largest-struct count of 0 |
| StructAnalysis.StructAnalyzer.GetStructInfo | src/lib/StructAnalyzer.cc:143-162 | looks up the type, then its scope-name representative; none exactly when neither has a record |
| StructAnalysis.StructAnalyzer.GetStructInfoContent | src/lib/StructAnalyzer.cc:143-162 | the record returned is the flattening of its key, and for a defined struct that key has the same members |
| StructAnalysis.StructAnalyzer.GetContainer | src/lib/StructAnalyzer.cc:164-192 | adds to `out` exactly the names Above reports; returns false for an unknown name, otherwise true exactly when the record has a named container |
| StructAnalysis.StructAnalyzer.VisitContainer | src/lib/StructAnalyzer.cc:175-189 | one container pair: a literal one is skipped, an anonymous one recurses into its scope name, any other reports its name |
| StructAnalysis.StructAnalyzer.AddContainer | src/lib/StructAnalyzer.cc:22-47 | (container, offset) is added to the containee; along every chain of recorded back-edges from the containee, (container, offset + chain offset) is added; no pair is removed |
| StructAnalysis.StructAnalyzer.PassMember | src/lib/StructAnalyzer.cc:27-45 | for one member of the containee, the nested record receives the pass-on for every pair naming the containee |
| StructAnalysis.StructAnalyzer.AddContainerBelow | src/lib/StructAnalyzer.cc:38-44 | every pair (containee, o) of a nested record leads to (container, o + offset) there and, recursively, below it |
| StructAnalysis.StructAnalyzer.PassOn | src/lib/StructAnalyzer.cc:41-43 | one pair (containee, o) leads to (container, o + offset) in the nested record, and recursively below it |
| StructAnalysis.StructAnalyzer.LinkContainer | src/lib/StructAnalyzer.cc:98 | addContainer as addStructInfo calls it, with the analyzer's invariant kept and the full recursive pass-on |
| StructAnalysis.StructAnalyzer.ComputeStructInfo | src/lib/StructAnalyzer.cc:49-62 | memoized: the result is the record of the type's representative; it fails exactly when a nested struct is opaque |
| StructAnalysis.StructAnalyzer.AddStructInfo | src/lib/StructAnalyzer.cc:64-73 | returns an existing record unchanged; otherwise builds and registers one; fails exactly when a nested struct is opaque |
| StructAnalysis.StructAnalyzer.AddNewStructInfo | src/lib/StructAnalyzer.cc:74-117 | the new record is registered under the type, and the analyzer's invariant (records equal their flattening, containers, largest count) holds again |
| StructAnalysis.StructAnalyzer.AddMembers | src/lib/StructAnalyzer.cc:75-110 | the member loop: afterwards the record's vectors are `Build` of all members and the count is the flattened size |
| StructAnalysis.StructAnalyzer.AddMember | src/lib/StructAnalyzer.cc:77-109 | one member: the record goes from `Build` of i members to `Build` of i + 1 |
| StructAnalysis.StructAnalyzer.AddNestedMember | src/lib/StructAnalyzer.cc:93-105 | a nested member: its record is computed, linked as container and spliced in |
| StructAnalysis.StructAnalyzer.NestedRecord | src/lib/StructAnalyzer.cc:94-98 | the nested struct's record exists afterwards, under its representative, with (st, member offset) among its containers |
| StructAnalysis.StructAnalyzer.Register | src/lib/StructAnalyzer.cc:112-115 | the finished record is stored under the type and the invariant holds |
| StructAnalysis.StructAnalyzer.UpdateMaxStruct | src/lib/StructAnalyzer.h:109-115 | the largest count never decreases, is at least the new count, and names the struct exactly when the new count is larger |
| StructAnalysis.StructAnalyzer.Run | src/lib/StructAnalyzer.cc:121-141 | succeeds exactly when no analyzed struct nests an opaque one; every non-opaque type then has a record; the first named struct of each scope name becomes its representative; earlier names are kept |
| StructAnalysis.StructAnalyzer.RunStep | src/lib/StructAnalyzer.cc:126-139 | one type: a literal one is analyzed, a named non-opaque one only if its scope name is new, and an opaque one is skipped |
| StructAnalysis.StructAnalyzer.AddName | src/lib/StructAnalyzer.cc:137 | the scope name is registered with the struct as representative |
| StructAnalysis.AppendNested | src/lib/StructAnalyzer.cc:101-105 | splicing a nested record takes the record from `Pushed` to `Build` of one more member and adds the nested flattened size |
| StructAnalysis.FinalizeRecord | src/lib/StructAnalyzer.cc:112-114 | the finished record's content is the flattening `Final` of the struct |
| NodeFactory.NewNode | src/lib/NodeFactory.h:46-49 | a new node is its own merge target |
| NodeFactory.MergeKeepsUnionFind | src/lib/NodeFactory.cc:287-290 | linking a root under another class keeps the union-find acyclic, with the roots of the absorbed class moved |
| NodeFactory.ConstNodeGrow | src/lib/NodeFactory.cc:125-194 | a constant that resolved keeps its node when lookups only gain entries |
| NodeFactory.AndersNodeFactory.constructor | src/lib/NodeFactory.cc:31-46 | exactly 5 nodes, kinds value, object, value, object, object at ids 0..4, each its own target; all maps empty |
| NodeFactory.AndersNodeFactory.SentinelKinds | src/lib/NodeFactory.h:200-204 | the universal and null object and constant-int getters name object nodes, the two pointer getters value nodes |
| NodeFactory.AndersNodeFactory.GetOffsetObjectNode | src/lib/NodeFactory.h:167-179 | a union object gives itself; otherwise n + offset, which is a fault unless that node is an object whose offset is offset(n) + offset |
| NodeFactory.AndersNodeFactory.OffsetInRun | src/lib/NodeFactory.h:167-179 | inside one object's run, stepping by d lands on the field node d further on |
| NodeFactory.AndersNodeFactory.GetObjectSize | src/lib/NodeFactory.h:181-192 | the last offset of the run of consecutive object nodes, plus 1; it exceeds the node's own offset |
| NodeFactory.AndersNodeFactory.GetObjectOffset | src/lib/NodeFactory.h:194-197 | the recorded offset, at most the node's id |
| NodeFactory.AndersNodeFactory.GetObjectBound | src/lib/NodeFactory.h:247-251 | one past the end of the node's run |
| NodeFactory.AndersNodeFactory.BoundOfRun | src/lib/NodeFactory.h:247-251 | for an object created as a run of `size` nodes, every node's bound is base + size and its size is `size` |
| NodeFactory.AndersNodeFactory.GetValueForNode | src/lib/NodeFactory.h:207-213 | a node with a value gives that value |
| NodeFactory.AndersNodeFactory.ValueOfField | src/lib/NodeFactory.h:207-213 | a field node without a value gives the value of its object's first node |
| NodeFactory.AndersNodeFactory.GetReturnNodeFor | src/lib/NodeFactory.cc:264-270 | invalid exactly when the function has no return node; otherwise a value node |
| NodeFactory.AndersNodeFactory.GetVarargNodeFor | src/lib/NodeFactory.cc:272-278 | invalid exactly when the function has no vararg node; otherwise an object node |
| NodeFactory.AndersNodeFactory.CreateValueNode | src/lib/NodeFactory.cc:48-57 | returns the old arena size, appends one value node, and maps a given value to it |
| NodeFactory.AndersNodeFactory.CreateObjectNode | src/lib/NodeFactory.cc:59-69 | always appends one object node; returns the existing object's id when the value has one, else the new id, which it maps |
| NodeFactory.AndersNodeFactory.CreateFieldNode | src/lib/NodeFactory.cc:71-80 | requires offset != 0 and arena size base + offset; appends an object node with that offset and no value and returns base + offset |
| NodeFactory.AndersNodeFactory.CreateReturnNode | src/lib/NodeFactory.cc:82-90 | appends one value node for the function and maps it; the lookup then gives it |
| NodeFactory.AndersNodeFactory.CreateVarargNode | src/lib/NodeFactory.cc:92-100 | appends one object node for the function and maps it; the lookup then gives it |
| NodeFactory.AndersNodeFactory.SetNodeAsTainted | src/lib/NodeFactory.cc:318-321 | adds the node to the tainted set and changes nothing else |
| NodeFactory.AndersNodeFactory.MergeNode | src/lib/NodeFactory.cc:287-290 | only `nodes[n1].mergeTarget` changes, to n0; the classes are merged |
| NodeFactory.AndersNodeFactory.GetMergeTargetReadOnly | src/lib/NodeFactory.cc:310-316 | returns the root reached by following merge targets, which targets itself; nothing changes |
| NodeFactory.AndersNodeFactory.GetMergeTarget | src/lib/NodeFactory.cc:292-308 | returns the same root; every node on the walked path then targets it; nothing else about any node changes |
| NodeFactory.AndersNodeFactory.GetValueNodeFor | src/lib/NodeFactory.cc:102-123 | a non-constant value gives its mapped node (a global declaration resolved to its definition) and changes nothing; a constant gives its constant resolution |
| NodeFactory.AndersNodeFactory.ConstGEPToFieldNum | src/lib/NodeFactory.cc:280-285 | the field number offsetToFieldNum gives for the GEP's offset into its pointee |
| NodeFactory.AndersNodeFactory.GepValueNode | src/lib/NodeFactory.cc:144-159 | field 0 gives the base node; a known (base, field) gives the memoized node; otherwise one new value node, recorded both ways |
| NodeFactory.AndersNodeFactory.ConstGepValueNode | src/lib/NodeFactory.cc:137-160 | the GEP case of constant resolution; a field-0 GEP over a usable base gives the base's node |
| NodeFactory.AndersNodeFactory.GetValueNodeForConstant | src/lib/NodeFactory.cc:125-194 | non-pointer gives node 4; null, undef, inttoptr, ptrtoint and blockaddress give node 2; a GEP gives its memoized field node (its base for field 0); a bitcast gives its source's node, with the null and universal objects mapped to their pointer nodes |
| NodeFactory.AndersNodeFactory.GetObjectNodeFor | src/lib/NodeFactory.cc:196-221 | a found node is an object node (or the universal pointer node a non-pointer constant stands for); a missing one is InvalidIndex |
| NodeFactory.AndersNodeFactory.GetObjectNodeForConstant | src/lib/NodeFactory.cc:223-262 | a found node is an object node or the universal pointer node; a missing one is InvalidIndex |
| NodeFactory.AndersNodeFactory.NonPointerConstantNodes | src/lib/NodeFactory.cc:224-225 | a non-pointer constant gives the universal pointer node, which is not an object node |
| OffsetResolver.GetGEPOffset | src/lib/PointTo.cc:260-288 | the in-place index rewrite computes `GEPOffset` |
| OffsetResolver.NonConstantIsZero | src/lib/PointTo.cc:276-282 | a non-constant index counts as index 0 |
| OffsetResolver.AllConstantIndices | src/lib/PointTo.cc:285 | with all indices constant, the offset is the base's offset plus the layout's indexed offset |
| OffsetResolver.NestedChain | src/lib/PointTo.cc:265-273 | a GEP over a cast of a constant GEP adds the inner GEP's offset |
| OffsetResolver.OffsetToFieldNum | src/lib/PointTo.cc:290-357 | computes `FieldNum`; 0 for a negative offset and for a named union or opaque pointee |
| OffsetResolver.DescendLoop | src/lib/PointTo.cc:313-355 | the descent loop computes `Descend` |
| OffsetResolver.FieldNumInRange | src/lib/PointTo.cc:290-357 | a resolved field index never exceeds the pointee's flattened count |
| OffsetResolver.FieldNumRoundTrip | src/lib/PointTo.cc:290-357 | for a non-union struct without zero-sized members, resolving the byte offset of flattened field f gives f |
| OffsetResolver.DescendRoundTrip | src/lib/PointTo.cc:313-355 | the descent from any type maps each field's byte offset back to that field |
| OffsetResolver.FieldByteOffsetBound | src/lib/PointTo.cc:319-345 | every flattened field starts inside the object |
| OffsetResolver.FieldAtZero | src/lib/PointTo.cc:313-317 | only field 0 starts at byte 0 |
| OffsetResolver.ExampleGEP | src/lib/PointTo.cc:260-288 | a GEP 0,1,1 into the example struct lands at byte 16 |
| OffsetResolver.ExampleFieldOfC | src/lib/PointTo.cc:319-352 | byte 16 of the example struct is field 2 |
| OffsetResolver.ExampleFieldOfB | src/lib/PointTo.cc:319-352 | byte 10, inside the array member, is field 1 |
| OffsetResolver.ExampleInsideA | src/lib/PointTo.cc:346-352 | byte 2, in the middle of the first field, stops at field 0 |
| Populate.ProcessStruct | src/lib/PointTo.cc:32-75 | a missing record is a fault; an empty record gives the null object; otherwise a value without an object gets one run of expanded-size nodes with the record's union flags |
| Populate.CreateNodeForPointerVal | src/lib/PointTo.cc:77-102 | non-pointers make nothing; a named union gets one union node, a non-struct one plain node, a struct the run of ProcessStruct |
| Populate.DefinedStructRecord | src/lib/PointTo.cc:54-62 | for a defined struct the record's union flags are its flattening's, and it is empty exactly when it flattens to no fields |
| Populate.MulU64 | src/lib/PointTo.cc:163-178 | uint64 multiplication: below 2^64, and the exact product when that fits |
| Populate.StripArrayDims | src/lib/PointTo.cc:166-169 | the innermost element type and the product of dimensions modulo 2^64 |
| Populate.CastPointee | src/lib/PointTo.cc:149-160 | the pointee of the first pointer-typed cast user, else the default |
| Populate.FirstPointerCast | src/lib/PointTo.cc:152-159 | the loop computes CastPointee |
| Populate.HeapObjectFlags | src/lib/PointTo.cc:141-205 | how many heap nodes and which union flags: a non-pointer or missing record faults; a larger constant size sets the count (faulting at UINT_MAX); else a struct's flattened count; else the largest struct's count |
| Populate.HeapObjectShape | src/lib/PointTo.cc:144-195 | the sizing loops compute HeapObjectFlags |
| Populate.CreateNodeForHeapObject | src/lib/PointTo.cc:141-206 | creates exactly the run HeapObjectFlags gives, heap-flagged, when the call has no object yet |
| Populate.CreateValueNodes | src/lib/PointTo.cc:230-232 | one value node per instruction in order; fails exactly when one is already mapped or repeated |
| Populate.CreateNodesForGlobalVar | src/lib/PointTo.cc:106-115 | a declaration makes nothing; a definition gets a value node and its object nodes |
| Populate.CreateGlobalVarNodes | src/lib/PointTo.cc:106-115 | every defined global variable has its value and object nodes |
| Populate.CreateSignatureNodes | src/lib/PointTo.cc:121-127 | a return node exactly for non-void functions and a vararg node exactly for vararg ones |
| Populate.CreateAddressNode | src/lib/PointTo.cc:133-137 | an address-taken function gets a value node, any other nothing |
| Populate.CreateNodesForFunction | src/lib/PointTo.cc:117-138 | declarations and intrinsics make nothing; otherwise signature nodes, argument nodes and the address node |
| Populate.CreateFunctionNodes | src/lib/PointTo.cc:117-138 | the return and vararg maps gain exactly the picked functions; every defined function's nodes exist |
| Populate.CreateNodeForGlobals | src/lib/PointTo.cc:104-139 | globals first, then functions; all their nodes exist afterwards |
| Populate.HandleAllocation | src/lib/PointTo.cc:237-253 | an alloca gets its pointer object (faulting without a value node or pointer type); an allocator call its heap object; anything else nothing |
| Populate.HandleAllocations | src/lib/PointTo.cc:235-255 | every allocation of the body has its objects |
| Populate.CreateNodesForBody | src/lib/PointTo.cc:220-255 | declarations, intrinsics and allocator bodies are skipped; otherwise all value nodes first, then the allocations |
| Populate.CreateBodiesNodes | src/lib/PointTo.cc:220-256 | every scanned body has its nodes |
| Populate.PopulateModule | src/lib/PointTo.cc:214-256 | the data layout is the module's; globals, signatures and bodies have their nodes |
| Populate.PopulateModules | src/lib/PointTo.cc:213-257 | every module in order; the arena and the lookups only grow |
| Populate.PopulateNodeFactory | src/lib/PointTo.cc:208-258 | on success every module is populated, the return and vararg maps gain exactly the picked functions, and the data layout is the last module's |

## Left out

- Node ids, field numbers and offsets are unbounded naturals. The source's 32-bit `unsigned` wrap-around is not modelled, so `InvalidIndex = UINT_MAX` is an id that a large enough arena could reach. uint64 arithmetic is modelled only where it decides sizes (MulU64).
- NodeFactory.AndersNodeFactory.CreateValueNode, CreateReturnNode, CreateVarargNode: the source's assert that the key is not yet mapped becomes a precondition. The populator, which can hit it, checks first and returns `Err(DuplicateValueNode)`.
- NodeFactory.AndersNodeFactory.GetObjectSize, GetObjectOffset, GetObjectBound: the source's `assert(isObjectNode(i))` becomes a precondition.
- NodeFactory.AndersNodeFactory.MergeNode: requires n1 to be a root and n0 not to be in n1's class. The source does not check this and can build a cycle, on which getMergeTarget would not terminate.
- NodeFactory.AndersNodeFactory.CreateFieldNode: the source's `assert(offset != 0)` and arena-size assert become preconditions; ProcessStruct and CreateNodeForHeapObject return `Err(BrokenObjectRun)` instead of calling it wrongly.
- NodeFactory.AndersNodeFactory.GetObjectOffset: states only that the offset is at most the id; BoundOfRun and FreshRunReadBack give its value for objects the populator creates.
- NodeFactory.AndersNodeFactory.GetObjectNodeFor, GetObjectNodeForConstant: state only that a result is an object node (or the universal pointer node); their bodies follow the source case by case, and NonPointerConstantNodes states the non-pointer case.
- NodeFactory.AndersNodeFactory.GetValueForNode: the contract gives the result for a node with a value; ValueOfField gives it for a field of an object run.
- getScopeName, isAllocFn and GetUnderlyingObject are not shown in the source. They are parameters: `scopeName: Type -> string`, `isAllocFn: string -> Option<AllocSig>` and `underlyingPointee: Constant -> Type`.
- StructAnalysis.StructAnalyzer.GetStructInfo: getScopeName also takes a Module, and the model drops that argument. The analyzer requires ScopeConsistent: named structs that share a scope name declare the same members. Without it the source returns the first struct's record for a differently shaped second struct, and the object runs of PointTo.cc:54-72 and 173-204 are sized by the wrong record. `GetStructInfoContent`'s `key.elems == st.elems`, `DefinedStructRecord`, and the height measure that makes `ComputeStructInfo` terminate all hold only under this assumption. See "## Findings" for the assert it trips.
- StructAnalysis.StructAnalyzer.Run: the run-wide closure "a struct F that nests P at offset O has (F, O) in P's record" is not stated. It does not hold in the source either: a literal struct can nest a named struct whose scope name is registered only later in the run, by a different struct, whose fresh record then lacks the pair. `AddContainer` states the full recursive pass-on over every chain recorded when it is called.
- The data layout is under-constrained. `elementOffset(elems, 0)` is not pinned to 0. `InnerOffset` returns 0 for an out-of-range struct index where LLVM asserts. The offset round trip (`FieldNumRoundTrip`) assumes members laid out in order without zero-sized members (`PlainLayout`).
- A zero-sized leaf during offset resolution (`offset %= 0`, undefined in C++) and a struct without members at a positive offset become `Err(ZeroSizedLeaf)` and `Err(NoElementAtOffset)`.
- setModule, setStructAnalyzer, setGobjMap and setFuncMap: the module is not part of the factory's state, and the other three are constructor parameters. SetDataLayout is modelled.
- Points-to set iterators, the gepMap iterators, `clearGepMap`, `removeNodeForValue`, `removeNodeForObject`, `updateNodeForObject`, `getNumNodes`, `getStored` and StructAnalyzer's `getSize` are not modelled; none is called by the core.
- Diagnostic output is not modelled: `dumpNode*`, `dumpNodeInfo`, `dumpRepInfo`, `printStructInfo`, the `errs()` output in getOffsetObjectNode, and logging.
- `isFieldUnion` is read from `unionFlags`. Because addStructInfo passes no union argument to addField, every flattened field's union flag is false (NoUnionFlags), and so are the non-first heap and struct field nodes.
- Value identity is by datatype value: instructions and arguments carry a numeric id, and globals carry the id of their defining object, so same-named statics in two modules are distinct.

## Findings

| source | as written | input that shows it | evidently intended | confidence | as-written member | corrected member |
|---|---|---|---|---|---|---|
| src/lib/StructAnalyzer.cc:101-103 | appendElementType runs after appendFields, so nested keys are shifted by the field count after the splice | `struct S { i32 a; struct T { [4 x i8] b; i32* c } inner; }` flattens to 3 fields but files a nested type under key 4 | nested element types shifted by the member's first flattened field, so every key is a field of S | not executed | Flatten.ElementTypeKeysAsWritten | Flatten.ElementTypeKeysBound |
| src/lib/StructAnalyzer.cc:49-96 | a nested named struct is resolved through its scope name, which may name the struct being built | `struct.S` = {i32, `struct.S.0`} with both scope names "S": the member resolves to `struct.S` itself, whose record is not finalized, tripping `assert(subInfo.isFinalized())` | a nested member resolves to a struct with its own members, strictly lower | not executed | StructAnalysis.ScopeClashNestsItself | StructAnalysis.NestedResolvesLower |
