// The populator: before the constraint solver runs, every global, function,
// argument, instruction and allocation of every module gets its nodes in the
// factory, and each allocation is expanded into a run of consecutive object
// nodes, one per flattened field.
module Populate {
  import opened Llvm
  import opened Flatten
  import opened StructAnalysis
  import opened OffsetResolver
  import opened NodeFactory

  // ------------------------------------------------------------ the IR walked

  type Instruction = v: Value | v.Inst? witness Inst(0, Void, OtherOp)
  type Argument = v: Value | v.Arg? witness Arg(0, Void)
  type GlobalVariable = g: Global | g.GlobalVar? witness GlobalVar(0, "", true, Void)
  type FunctionGlobal = g: Global | g.Function? witness Function(0, "", true)

  /** A function of a module: its global, what its signature says, its
      formal arguments and the instructions of its body in order. */
  datatype FunctionDef = FunctionDef(
    fn: FunctionGlobal,
    isIntrinsic: bool,
    returnsVoid: bool,
    isVarArg: bool,
    addressTaken: bool,
    args: seq<Argument>,
    body: seq<Instruction>)

  datatype Module = Module(dl: DataLayout, globals: seq<GlobalVariable>, functions: seq<FunctionDef>)

  /** A function with a body that is not an intrinsic: the only kind the
      populator looks into. */
  predicate Defined(f: FunctionDef) {
    !f.fn.isDecl && !f.isIntrinsic
  }

  /** A value that can own memory here: an instruction, an argument or a
      defined global. getObjectNodeFor looks such a value up as it is. */
  predicate MemoryValue(v: Value) {
    v.Inst? || v.Arg? || (v.IsGlobal() && !v.c.g.isDecl)
  }

  // ------------------------------------------------------ how the factory grows

  /** The arena only grew at its end and the object lookup only gained
      entries: all that making objects does. */
  twostate predicate ObjectsGrew(nf: AndersNodeFactory)
    reads nf
  {
    old(nf.nodes) <= nf.nodes && Extends(old(nf.objNodeMap), nf.objNodeMap)
  }

  /** The arena only grew at its end and the lookups the populator fills
      only gained entries. */
  twostate predicate Grew(nf: AndersNodeFactory)
    reads nf
  {
    old(nf.nodes) <= nf.nodes &&
    Extends(old(nf.valueNodeMap), nf.valueNodeMap) && Extends(old(nf.objNodeMap), nf.objNodeMap) &&
    Extends(old(nf.returnMap), nf.returnMap) && Extends(old(nf.varargMap), nf.varargMap)
  }

  /** b keeps every entry of a. */
  predicate Extends<K, V(==)>(a: map<K, V>, b: map<K, V>) {
    forall k :: k in a ==> k in b && b[k] == a[k]
  }

  /** The arena ends with a fresh object for v, starting at b: one object node
      per entry of flags, the first carrying v, the node of field k at offset k
      with union flag flags[k], every node with heap flag `heap` and its own
      merge target. */
  predicate FreshRun(nodes: seq<AndersNode>, b: nat, v: Value, flags: seq<bool>, heap: bool) {
    0 < |flags| && b + |flags| == |nodes| &&
    forall k :: b <= k < |nodes| ==>
      nodes[k] == NewNode(ObjNode, k, if k == b then Some(v) else None, k - b, flags[k - b], heap)
  }

  /** A fresh run is the object getObjectSize and getObjectBound read back:
      from each of its nodes the run ends at its last node, whose offset is one
      less than the number of fields. */
  lemma FreshRunReadBack(nodes: seq<AndersNode>, b: nat, v: Value, flags: seq<bool>, heap: bool)
    requires FreshRun(nodes, b, v, flags, heap)
    ensures ObjectRun(nodes, b, |flags|)
    ensures forall k :: b <= k < b + |flags| ==> RunEnd(nodes, k) == b + |flags| - 1
    ensures nodes[b + |flags| - 1].offset + 1 == |flags|
  {
    forall k | b <= k < b + |flags|
      ensures RunEnd(nodes, k) == b + |flags| - 1
    {
      RunEndOfObject(nodes, b, |flags|, k - b);
    }
  }

  /** The object of v after a call that makes v's object as a run: a value
      with an object keeps it and nothing changes; a value without one gets a
      fresh run with these flags, and v maps to its first node. (A value
      mapped to the node numbered InvalidIndex is neither.) */
  twostate predicate MadeRun(nf: AndersNodeFactory, v: Value, flags: seq<bool>, heap: bool)
    reads nf
  {
    (IdOf(old(nf.objNodeMap), v) != InvalidIndex ==>
      nf.nodes == old(nf.nodes) && nf.objNodeMap == old(nf.objNodeMap)) &&
    (v !in old(nf.objNodeMap) ==>
      old(nf.nodes) <= nf.nodes && FreshRun(nf.nodes, old(|nf.nodes|), v, flags, heap) &&
      nf.objNodeMap == old(nf.objNodeMap)[v := old(|nf.nodes|)])
  }

  /** One call of createObjectNode(v, uo): a node is appended whether or not
      v already has an object, and v maps to it only if it had none. */
  twostate predicate AppendedObject(nf: AndersNodeFactory, v: Value, uo: bool)
    reads nf
  {
    nf.nodes == old(nf.nodes) + [NewNode(ObjNode, old(|nf.nodes|), Some(v), 0, uo, false)] &&
    nf.objNodeMap == if v in old(nf.objNodeMap) then old(nf.objNodeMap) else old(nf.objNodeMap)[v := old(|nf.nodes|)]
  }

  /** The nodes past b, up to the end of the arena, are the field nodes of
      the object at b: the node of field k at offset k with union flag
      flags[k] and heap flag `heap`. */
  predicate FieldRun(nodes: seq<AndersNode>, b: nat, flags: seq<bool>, heap: bool) {
    |nodes| <= b + |flags| &&
    forall k :: b < k < |nodes| ==> nodes[k] == NewNode(ObjNode, k, None, k - b, flags[k - b], heap)
  }

  /** The loop of processStruct and createNodeForHeapObject past the first
      node: one field node per further flag, each of which must land at
      obj + its offset; with the first node anywhere else the loop stops at
      its first round. */
  method CreateFieldNodes(nf: AndersNodeFactory, obj: nat, flags: seq<bool>, heap: bool) returns (res: Result<nat>)
    requires nf.Valid() && |flags| > 0
    modifies nf`nodes, nf`root, nf`rank
    ensures nf.Valid() && old(nf.nodes) <= nf.nodes
    ensures |flags| == 1 ==> res == Ok(obj) && nf.nodes == old(nf.nodes)
    ensures |flags| > 1 && old(|nf.nodes|) != obj + 1 ==> res == Err(BrokenObjectRun) && nf.nodes == old(nf.nodes)
    ensures old(|nf.nodes|) == obj + 1 ==>
      (res == Ok(obj) && |nf.nodes| == obj + |flags| && FieldRun(nf.nodes, obj, flags, heap))
  {
    var i := 1;
    while i < |flags|
      invariant 1 <= i <= |flags|
      invariant nf.Valid() && old(nf.nodes) <= nf.nodes
      invariant old(|nf.nodes|) != obj + 1 ==> i == 1 && nf.nodes == old(nf.nodes)
      invariant old(|nf.nodes|) == obj + 1 ==> |nf.nodes| == obj + i && FieldRun(nf.nodes, obj, flags, heap)
    {
      if |nf.nodes| != obj + i {
        return Err(BrokenObjectRun);
      }
      var _ := nf.CreateFieldNode(obj, i, flags[i], heap);
      i := i + 1;
    }
    res := Ok(obj);
  }

  /** The object made by processStruct and createNodeForHeapObject: the
      first node for v, then its field nodes. */
  method CreateObjectRun(nf: AndersNodeFactory, v: Value, flags: seq<bool>, heap: bool) returns (res: Result<nat>)
    requires nf.Valid() && |flags| > 0
    modifies nf`nodes, nf`root, nf`rank, nf`objNodeMap
    ensures nf.Valid() && ObjectsGrew(nf)
    ensures v !in old(nf.objNodeMap) ==>
      res == Ok(old(|nf.nodes|)) && FreshRun(nf.nodes, res.value, v, flags, heap) &&
      nf.objNodeMap == old(nf.objNodeMap)[v := res.value]
  {
    var obj := nf.CreateObjectNode(Some(v), flags[0], heap);
    res := CreateFieldNodes(nf, obj, flags, heap);
  }

  // ------------------------------------------------------------ structs

  /** The record getStructInfo gives st has no flattened field. */
  ghost predicate EmptyRecord(sa: StructAnalyzer, st: Type)
    reads sa, sa.structInfoMap.Values
  {
    var r := sa.GetStructInfo(st);
    r.Some? && |r.value.fieldSize| > 0 && r.value.fieldSize[0] == 0
  }

  /** The pointee, arrays stripped, is a struct that is not a named union and
      whose record is empty: createNodeForPointerVal gives it no object. */
  ghost predicate EmptyStructPointee(sa: StructAnalyzer, t: Type)
    reads sa, sa.structInfoMap.Values
  {
    var s := StripArrays(t);
    s.Struct? && !IsNamedUnion(s) && EmptyRecord(sa, s)
  }

  /** For a defined struct the record processStruct reads is the flattening
      of its own members: one union flag per flattened field, and it is empty
      exactly when the struct flattens to no field. */
  lemma DefinedStructRecord(sa: StructAnalyzer, st: Type)
    requires sa.Valid(None) && st.Struct? && !st.isOpaque && sa.GetStructInfo(st).Some?
    ensures sa.GetStructInfo(st).value.unionFlags == Final(sa.dl, st.elems).unionFlags
    ensures |sa.GetStructInfo(st).value.unionFlags| == ExpandedSize(st.elems)
    ensures EmptyRecord(sa, st) <==> ExpandedSize(st.elems) == 0
  {
    sa.GetStructInfoContent(st);
  }

  /** A record shaped as a finalized flattening: its first field size is
      its number of union flags, and there are as many array flags. */
  predicate Shaped(r: StructInfo)
    reads r
  {
    |r.fieldSize| > 0 && r.fieldSize[0] == |r.unionFlags| && |r.arrayFlags| == |r.unionFlags|
  }

  /** What the populator needs of the struct analysis: what getObjectNodeFor
      needs, and every record it can look up shaped as a flattening. */
  ghost predicate Prepared(sa: StructAnalyzer)
    reads sa, sa.structInfoMap.Values
  {
    Wf(ViewOf(sa)) &&
    forall st :: sa.GetStructInfo(st).Some? ==> Shaped(sa.GetStructInfo(st).value)
  }

  /** A finished struct analysis is prepared for the populator. */
  lemma AnalyzerPrepared(sa: StructAnalyzer)
    requires sa.Valid(None)
    ensures Prepared(sa)
  {
    ViewWf(sa);
    forall st | sa.GetStructInfo(st).Some?
      ensures Shaped(sa.GetStructInfo(st).value)
    {
      sa.GetStructInfoContent(st);
    }
  }

  /** processStruct: the null object for an empty struct; otherwise v's
      object, made as one node per flattened field when v has none. */
  method ProcessStruct(nf: AndersNodeFactory, v: Value, st: Type) returns (res: Result<nat>)
    requires nf.Valid() && Prepared(nf.structAnalyzer) && MemoryValue(v) && st.Struct?
    modifies nf`nodes, nf`root, nf`rank, nf`objNodeMap
    ensures nf.Valid() && ObjectsGrew(nf)
    ensures nf.structAnalyzer.GetStructInfo(st).None? ==> res == Err(MissingStructInfo) && nf.nodes == old(nf.nodes)
    ensures EmptyRecord(nf.structAnalyzer, st) ==>
      res == Ok(NullObjectIndex) && nf.nodes == old(nf.nodes) && nf.objNodeMap == old(nf.objNodeMap)
    ensures nf.structAnalyzer.GetStructInfo(st).Some? && !EmptyRecord(nf.structAnalyzer, st) ==>
      MadeRun(nf, v, nf.structAnalyzer.GetStructInfo(st).value.unionFlags, false) &&
      (v !in old(nf.objNodeMap) || IdOf(old(nf.objNodeMap), v) != InvalidIndex ==> res == Ok(nf.objNodeMap[v]))
  {
    var sa := nf.structAnalyzer;
    var stInfo := sa.GetStructInfo(st);
    if stInfo.None? {
      return Err(MissingStructInfo);
    }
    var info := stInfo.value;
    if info.IsEmpty() {
      return Ok(nf.GetNullObjectNode());
    }
    var obj := nf.GetObjectNodeFor(v);
    assert obj == Ok(IdOf(nf.objNodeMap, v));
    if obj.value == InvalidIndex {
      obj := CreateObjectRun(nf, v, info.unionFlags, false);
    }
    res := obj;
  }

  /** The pointee types createNodeForPointerVal gives no object. */
  ghost function EmptyPointees(sa: StructAnalyzer): iset<Type>
    reads sa, sa.structInfoMap.Values
  {
    iset t | EmptyStructPointee(sa, t)
  }

  /** A pointer value has its object: it is mapped, or its pointee is one
      of `empties`, the types given no object. */
  ghost predicate HasObject(objs: map<Value, nat>, empties: iset<Type>, v: Value, t: Type) {
    v in objs || (t.Ptr? && t.pointee in empties)
  }

  /** createNodeForPointerVal: nothing for a non-pointer; for a pointer, the
      object of its pointee with arrays stripped: a single union object for a
      named union, processStruct for another struct, a single object for
      anything else. */
  method CreateNodeForPointerVal(nf: AndersNodeFactory, v: Value, t: Type, valNode: nat) returns (res: Result<()>)
    requires nf.Valid() && Prepared(nf.structAnalyzer) && MemoryValue(v)
    modifies nf`nodes, nf`root, nf`rank, nf`objNodeMap
    ensures nf.Valid() && ObjectsGrew(nf)
    ensures !t.Ptr? ==> res == Ok(()) && nf.nodes == old(nf.nodes) && nf.objNodeMap == old(nf.objNodeMap)
    ensures t.Ptr? && valNode == InvalidIndex ==> res == Err(MissingValueNode) && nf.nodes == old(nf.nodes)
    ensures res.Ok? && t.Ptr? ==> HasObject(nf.objNodeMap, EmptyPointees(nf.structAnalyzer), v, t)
    ensures t.Ptr? && valNode != InvalidIndex && !StripArrays(t.pointee).Struct? ==>
      res == Ok(()) && AppendedObject(nf, v, false)
    ensures t.Ptr? && valNode != InvalidIndex && IsNamedUnion(StripArrays(t.pointee)) ==>
      res == Ok(()) && AppendedObject(nf, v, true)
    ensures t.Ptr? && valNode != InvalidIndex && StripArrays(t.pointee).Struct? && !IsNamedUnion(StripArrays(t.pointee)) ==>
      var st := StripArrays(t.pointee);
      var sa := nf.structAnalyzer;
      (sa.GetStructInfo(st).None? ==> res == Err(MissingStructInfo)) &&
      (sa.GetStructInfo(st).Some? && v !in old(nf.objNodeMap) ==> res.Ok?) &&
      (EmptyRecord(sa, st) ==> nf.nodes == old(nf.nodes) && nf.objNodeMap == old(nf.objNodeMap)) &&
      (sa.GetStructInfo(st).Some? && !EmptyRecord(sa, st) ==> MadeRun(nf, v, sa.GetStructInfo(st).value.unionFlags, false))
  {
    if !t.Ptr? {
      return Ok(());
    }
    if valNode == InvalidIndex {
      return Err(MissingValueNode);
    }
    var ty := StripArrays(t.pointee);
    if ty.Struct? {
      if IsNamedUnion(ty) {
        var _ := nf.CreateObjectNode(Some(v), true, false);
      } else {
        var r := ProcessStruct(nf, v, ty);
        if r.Err? {
          return Err(r.fault);
        }
      }
    } else {
      var _ := nf.CreateObjectNode(Some(v), false, false);
    }
    res := Ok(());
  }

  // ------------------------------------------------------------ heap objects

  const U64: nat := 0x1_0000_0000_0000_0000

  /** A product in uint64_t: it wraps modulo 2^64. */
  function MulU64(a: nat, b: nat): (r: nat)
    ensures r < U64
    ensures a * b < U64 ==> r == a * b
  {
    (a * b) % U64
  }

  lemma ModAddMultiple(k: nat, z: nat)
    ensures (k * U64 + z) % U64 == z % U64
  {
  }

  /** Reducing a factor modulo 2^64 first does not change the wrapped product. */
  lemma MulU64Left(x: nat, y: nat)
    ensures MulU64(x % U64, y) == MulU64(x, y)
  {
    var q, r := x / U64, x % U64;
    assert x == q * U64 + r;
    calc {
      x * y;
      (q * U64 + r) * y;
      { assert (q * U64 + r) * y == q * U64 * y + r * y; }
      q * U64 * y + r * y;
      { assert q * U64 * y == (q * y) * U64; }
      (q * y) * U64 + r * y;
    }
    ModAddMultiple(q * y, r * y);
  }

  /** Multiplying in one more factor, wrapping each time, wraps the whole
      product once. */
  lemma MulU64Step(c: nat, n: nat, rest: nat)
    ensures MulU64(MulU64(c, n), rest) == MulU64(c, n * rest)
  {
    calc {
      MulU64(MulU64(c, n), rest);
      { MulU64Left(c * n, rest); }
      MulU64(c * n, rest);
      { assert (c * n) * rest == c * (n * rest); }
      MulU64(c, n * rest);
    }
  }

  /** The product of the element counts of t's array dimensions. */
  function ArrayCount(t: Type): nat {
    if t.Array? then t.count * ArrayCount(t.elem) else 1
  }

  /** The loop of createNodeForHeapObject that strips the array dimensions
      and multiplies allocSize by each element count. */
  method StripArrayDims(t: Type) returns (elem: Type, count: nat)
    ensures elem == StripArrays(t)
    ensures count == ArrayCount(t) % U64
  {
    elem, count := t, 1;
    while elem.Array?
      invariant StripArrays(elem) == StripArrays(t) && count < U64
      invariant MulU64(count, ArrayCount(elem)) == ArrayCount(t) % U64
      decreases elem
    {
      MulU64Step(count, elem.count, ArrayCount(elem.elem));
      count := MulU64(count, elem.count);
      elem := elem.elem;
    }
  }

  /** The pointee of the first cast of the call's result to a pointer type,
      `dflt` when there is none. */
  function CastPointee(users: seq<Type>, dflt: Type): (r: Type)
    ensures forall i :: 0 <= i < |users| && users[i].Ptr? && (forall j :: 0 <= j < i ==> !users[j].Ptr?) ==>
      r == users[i].pointee
    ensures (forall j :: 0 <= j < |users| ==> !users[j].Ptr?) ==> r == dflt
  {
    if users == [] then dflt
    else if users[0].Ptr? then users[0].pointee
    else CastPointee(users[1..], dflt)
  }

  /** The walk over the users of an i8* allocation: the first cast to a
      pointer type decides the allocated type. */
  method FirstPointerCast(users: seq<Type>, dflt: Type) returns (r: Type)
    ensures r == CastPointee(users, dflt)
  {
    var i := 0;
    while i < |users|
      invariant 0 <= i <= |users|
      invariant CastPointee(users[i..], dflt) == CastPointee(users, dflt)
    {
      if users[i].Ptr? {
        return users[i].pointee;
      }
      assert users[i..][1..] == users[i + 1..];
      i := i + 1;
    }
    r := dflt;
  }

  /** The type a heap allocation is sized by: the pointee of the call's type,
      where an i8 pointee gives way to the pointee of the first pointer cast. */
  function AllocatedType(ty: Type, castUsers: seq<Type>): Type
    requires ty.Ptr?
  {
    if ty.pointee == Int(8) then CastPointee(castUsers, ty.pointee) else ty.pointee
  }

  /** The size operand of an allocator call, when it is a constant integer. */
  function SizeOperand(args: seq<Value>, sizeArg: int): Option<nat> {
    if 0 <= sizeArg < |args| && args[sizeArg].Const? && args[sizeArg].c.ConstInt?
    then Some(args[sizeArg].c.v) else None
  }

  /** The union flags of a heap object of n fields (one field when n is 0):
      the first is the named-union test of the allocated type, field i reads
      the record's flag while i is below its expanded size, false past it. */
  function HeapFlags(isUnion: bool, fieldUnion: seq<bool>, n: nat): (r: seq<bool>)
    ensures |r| == if n == 0 then 1 else n
    ensures r[0] == isUnion
    ensures forall i :: 1 <= i < |r| ==> r[i] == (i < |fieldUnion| && fieldUnion[i])
  {
    [isUnion] + seq(if n == 0 then 0 else n - 1, j requires 0 <= j => j + 1 < |fieldUnion| && fieldUnion[j + 1])
  }

  /** allocSize of createNodeForHeapObject: the wrapped product of the array
      counts, 1 when that is 0, times the record's alloc size for a struct. */
  function HeapAllocSize(count: nat, structAlloc: Option<nat>): (r: nat)
    ensures structAlloc.None? ==> 1 <= r < U64
    ensures structAlloc.None? && 0 < count < U64 ==> r == count
    ensures structAlloc.Some? && 0 < count < U64 && count * structAlloc.value < U64 ==> r == count * structAlloc.value
  {
    var c := if count % U64 == 0 then 1 else count % U64;
    if structAlloc.Some? then MulU64(c, structAlloc.value) else c
  }

  /** The allocated type with arrays stripped: what a heap object's fields
      come from. */
  function HeapElem(ty: Type, castUsers: seq<Type>): Type
    requires ty.Ptr?
  {
    StripArrays(AllocatedType(ty, castUsers))
  }

  /** The record of the allocated struct, none for any other type. */
  function HeapRecord(sa: StructAnalyzer, ty: Type, castUsers: seq<Type>): Option<StructInfo>
    reads sa
    requires ty.Ptr?
  {
    if HeapElem(ty, castUsers).Struct? then sa.GetStructInfo(HeapElem(ty, castUsers)) else None
  }

  /** The byte count createNodeForHeapObject compares the size operand with. */
  function HeapBytes(sa: StructAnalyzer, ty: Type, castUsers: seq<Type>): nat
    reads sa, sa.structInfoMap.Values
    requires ty.Ptr?
  {
    var info := HeapRecord(sa, ty, castUsers);
    HeapAllocSize(ArrayCount(AllocatedType(ty, castUsers)), if info.Some? then Some(info.value.allocSize) else None)
  }

  /** The size operand is a constant above the allocation's byte count. */
  predicate SizeWins(sa: StructAnalyzer, ty: Type, castUsers: seq<Type>, size: Option<nat>)
    reads sa, sa.structInfoMap.Values
    requires ty.Ptr?
  {
    size.Some? && size.value > HeapBytes(sa, ty, castUsers)
  }

  /** The union flags of the heap object createNodeForHeapObject makes for an
      allocator call of type ty, one per node, or the fault it stops on. */
  function HeapObjectFlags(sa: StructAnalyzer, ty: Type, castUsers: seq<Type>, size: Option<nat>): (r: Result<seq<bool>>)
    reads sa, sa.structInfoMap.Values
    ensures !ty.Ptr? <==> r == Err(NonPointerAllocation)
    ensures r.Ok? ==> |r.value| >= 1 && r.value[0] == IsNamedUnion(HeapElem(ty, castUsers))
    // a struct needs a record
    ensures ty.Ptr? && HeapElem(ty, castUsers).Struct? && HeapRecord(sa, ty, castUsers).None? ==>
      r == Err(MissingStructInfo)
    // a constant size above the allocation's byte count sets the node count
    ensures r.Ok? && SizeWins(sa, ty, castUsers, size) ==> |r.value| == size.value < UINT_MAX
    ensures ty.Ptr? && r != Err(MissingStructInfo) && SizeWins(sa, ty, castUsers, size) ==>
      (r.Ok? <==> size.value < UINT_MAX)
    // otherwise a struct gets its flattened fields, with their union flags
    ensures (r.Ok? && !SizeWins(sa, ty, castUsers, size) && HeapRecord(sa, ty, castUsers).Some? &&
             |HeapRecord(sa, ty, castUsers).value.arrayFlags| > 0) ==>
      (var info := HeapRecord(sa, ty, castUsers).value;
       |r.value| == |info.arrayFlags| &&
       forall i :: 1 <= i < |r.value| ==> r.value[i] == (i < |info.unionFlags| && info.unionFlags[i]))
    // and anything else, or an empty struct, the largest struct's field count
    ensures (r.Ok? && !SizeWins(sa, ty, castUsers, size) &&
             (HeapRecord(sa, ty, castUsers).None? || |HeapRecord(sa, ty, castUsers).value.arrayFlags| == 0)) ==>
      |r.value| == (if sa.maxStructSize == 0 then 1 else sa.maxStructSize)
  {
    if !ty.Ptr? then Err(NonPointerAllocation)
    else
      var elem := HeapElem(ty, castUsers);
      var info := HeapRecord(sa, ty, castUsers);
      if elem.Struct? && info.None? then Err(MissingStructInfo)
      else
        var fields := if info.Some? then |info.value.arrayFlags| else 0;
        var fieldUnion := if info.Some? then info.value.unionFlags else [];
        if SizeWins(sa, ty, castUsers, size) && size.value >= UINT_MAX then Err(OversizedAllocation)
        else
          var maxSize := if SizeWins(sa, ty, castUsers, size) then size.value else fields;
          Ok(HeapFlags(IsNamedUnion(elem), fieldUnion, if maxSize == 0 then sa.maxStructSize else maxSize))
  }

  /** The sizing part of createNodeForHeapObject: the allocated type, its
      array dimensions, its record and the size operand give the union flags
      of the nodes to make. */
  method HeapObjectShape(sa: StructAnalyzer, call: Instruction, sig: AllocSig) returns (r: Result<seq<bool>>)
    requires call.op.Call?
    ensures r == HeapObjectFlags(sa, call.ty, call.op.castUsers, SizeOperand(call.op.args, sig.sizeArg))
  {
    if !call.ty.Ptr? {
      return Err(NonPointerAllocation);
    }
    var elemType := call.ty.pointee;
    if elemType == Int(8) {
      elemType := FirstPointerCast(call.op.castUsers, elemType);
    }
    var elem, count := StripArrayDims(elemType);
    var allocSize := count;
    if allocSize == 0 {
      allocSize := 1;
    }
    var maxSize: nat := 0;
    var isUnion := false;
    var fieldUnion: seq<bool> := [];
    if elem.Struct? {
      var stInfo := sa.GetStructInfo(elem);
      if stInfo.None? {
        return Err(MissingStructInfo);
      }
      isUnion := IsNamedUnion(elem);
      maxSize := stInfo.value.GetExpandedSize();
      fieldUnion := stInfo.value.unionFlags;
      allocSize := MulU64(allocSize, stInfo.value.allocSize);
    }
    if sig.sizeArg >= 0 {
      var size := SizeOperand(call.op.args, sig.sizeArg);
      if size.Some? && size.value > allocSize {
        if size.value >= UINT_MAX {
          return Err(OversizedAllocation);
        }
        maxSize := size.value;
      }
    }
    if maxSize == 0 {
      maxSize := sa.maxStructSize;
    }
    r := Ok(HeapFlags(isUnion, fieldUnion, maxSize));
  }

  /** createNodeForHeapObject: the call gets a heap object of the computed
      shape unless it has an object already. */
  method CreateNodeForHeapObject(nf: AndersNodeFactory, call: Instruction, sig: AllocSig) returns (res: Result<()>)
    requires nf.Valid() && Prepared(nf.structAnalyzer) && call.op.Call?
    modifies nf`nodes, nf`root, nf`rank, nf`objNodeMap
    ensures nf.Valid() && ObjectsGrew(nf)
    ensures var spec := HeapObjectFlags(nf.structAnalyzer, call.ty, call.op.castUsers, SizeOperand(call.op.args, sig.sizeArg));
      (spec.Err? ==> res == Err(spec.fault) && nf.nodes == old(nf.nodes)) &&
      (spec.Ok? && call !in old(nf.objNodeMap) ==> res.Ok?) &&
      (res.Ok? ==> call in nf.objNodeMap) &&
      (spec.Ok? ==> MadeRun(nf, call, spec.value, true))
  {
    var sa := nf.structAnalyzer;
    var shape := HeapObjectShape(sa, call, sig);
    if shape.Err? {
      return Err(shape.fault);
    }
    var obj := nf.GetObjectNodeFor(call);
    assert obj == Ok(IdOf(nf.objNodeMap, call));
    if obj.value == InvalidIndex {
      var r := CreateObjectRun(nf, call, shape.value, true);
      if r.Err? {
        return Err(r.fault);
      }
    }
    res := Ok(());
  }

  // ------------------------------------------------------------ value nodes

  /** None of vs has a value node in m yet, and no value occurs twice in vs:
      what the source's createValueNode asserts once per value. */
  predicate NewAndDistinct(m: map<Value, nat>, vs: seq<Value>) {
    (forall j :: 0 <= j < |vs| ==> vs[j] !in m) &&
    (forall j, k :: 0 <= j < k < |vs| ==> vs[j] != vs[k])
  }

  lemma NewAndDistinctStep(m: map<Value, nat>, vs: seq<Value>, i: nat)
    requires i < |vs| && NewAndDistinct(m, vs[..i])
    ensures NewAndDistinct(m, vs[..i + 1]) <==> vs[i] !in m && vs[i] !in vs[..i]
  {
    assert vs[..i + 1] == vs[..i] + [vs[i]];
  }

  /** Distinct new values stay so in every prefix. */
  lemma NewAndDistinctPrefix(m: map<Value, nat>, vs: seq<Value>, n: nat)
    requires n <= |vs|
    ensures NewAndDistinct(m, vs) ==> NewAndDistinct(m, vs[..n])
  {
  }

  /** m after the value nodes n, n + 1, ... are given to the values of vs
      in order. */
  function Added(m: map<Value, nat>, vs: seq<Value>, n: nat): map<Value, nat> {
    if vs == [] then m else Added(m, vs[..|vs| - 1], n)[vs[|vs| - 1] := n + |vs| - 1]
  }

  lemma AddedStep(m: map<Value, nat>, vs: seq<Value>, n: nat, i: nat)
    requires i < |vs|
    ensures Added(m, vs[..i + 1], n) == Added(m, vs[..i], n)[vs[i] := n + i]
  {
    assert vs[..i + 1][..i] == vs[..i];
  }

  /** The values with a node after the additions are the old ones and vs. */
  lemma {:induction false} AddedKeys(m: map<Value, nat>, vs: seq<Value>, n: nat, v: Value)
    ensures v in Added(m, vs, n) <==> v in m || v in vs
  {
    if vs != [] {
      var init := vs[..|vs| - 1];
      AddedKeys(m, init, n, v);
      assert vs == init + [vs[|vs| - 1]];
    }
  }

  /** Distinct new values keep the old entries and get consecutive ids. */
  lemma {:induction false} AddedValues(m: map<Value, nat>, vs: seq<Value>, n: nat)
    requires NewAndDistinct(m, vs)
    ensures Extends(m, Added(m, vs, n))
    ensures forall j :: 0 <= j < |vs| ==> vs[j] in Added(m, vs, n) && Added(m, vs, n)[vs[j]] == n + j
  {
    if vs != [] {
      var init := vs[..|vs| - 1];
      NewAndDistinctPrefix(m, vs, |vs| - 1);
      AddedValues(m, init, n);
    }
  }

  /** One value node per value of vs, in order: the loop over a function's
      formal arguments, and the first loop over a function's instructions.
      It fails exactly when a value already has a node or occurs twice. */
  method CreateValueNodes(nf: AndersNodeFactory, vs: seq<Value>) returns (res: Result<()>)
    requires nf.Valid()
    modifies nf`nodes, nf`root, nf`rank, nf`valueNodeMap
    ensures nf.Valid() && old(nf.nodes) <= nf.nodes && Extends(old(nf.valueNodeMap), nf.valueNodeMap)
    ensures res.Ok? <==> NewAndDistinct(old(nf.valueNodeMap), vs)
    ensures res.Err? ==> res.fault == DuplicateValueNode
    ensures res.Ok? ==>
      |nf.nodes| == old(|nf.nodes|) + |vs| && nf.valueNodeMap == Added(old(nf.valueNodeMap), vs, old(|nf.nodes|))
  {
    ghost var m0, n0 := nf.valueNodeMap, |nf.nodes|;
    var i := 0;
    while i < |vs|
      invariant 0 <= i <= |vs|
      invariant nf.Valid() && old(nf.nodes) <= nf.nodes && |nf.nodes| == n0 + i
      invariant NewAndDistinct(m0, vs[..i]) && nf.valueNodeMap == Added(m0, vs[..i], n0)
    {
      AddedKeys(m0, vs[..i], n0, vs[i]);
      NewAndDistinctStep(m0, vs, i);
      if vs[i] in nf.valueNodeMap {
        NewAndDistinctPrefix(m0, vs, i + 1);
        AddedValues(m0, vs[..i], n0);
        return Err(DuplicateValueNode);
      }
      var _ := nf.CreateValueNode(Some(vs[i]));
      AddedStep(m0, vs, n0, i);
      i := i + 1;
    }
    assert vs[..i] == vs;
    AddedValues(m0, vs, n0);
    res := Ok(());
  }

  // ------------------------------------------------------------ globals

  /** A defined global variable has its value node and, as a pointer to its
      value type, its object. */
  ghost predicate GlobalVarMade(vals: map<Value, nat>, objs: map<Value, nat>, empties: iset<Type>, gv: GlobalVariable) {
    !gv.isDecl ==>
      Const(GlobalRef(gv)) in vals && HasObject(objs, empties, Const(GlobalRef(gv)), Ptr(gv.valueType))
  }

  ghost predicate GlobalsMade(vals: map<Value, nat>, objs: map<Value, nat>, empties: iset<Type>, gvs: seq<GlobalVariable>) {
    forall i :: 0 <= i < |gvs| ==> GlobalVarMade(vals, objs, empties, gvs[i])
  }

  /** What is made stays made as the lookups gain entries. */
  lemma GlobalsMadeGrow(vals: map<Value, nat>, objs: map<Value, nat>, vals': map<Value, nat>, objs': map<Value, nat>,
                        empties: iset<Type>, gvs: seq<GlobalVariable>)
    requires GlobalsMade(vals, objs, empties, gvs) && Extends(vals, vals') && Extends(objs, objs')
    ensures GlobalsMade(vals', objs', empties, gvs)
  {
    forall i | 0 <= i < |gvs|
      ensures GlobalVarMade(vals', objs', empties, gvs[i])
    {
      assert GlobalVarMade(vals, objs, empties, gvs[i]);
    }
  }

  /** One more global variable made, the lookups having grown from
      (vals0, objs0) to (vals, objs) before the round and to (vals', objs')
      in it. */
  lemma GlobalsStep(vals0: map<Value, nat>, objs0: map<Value, nat>, vals: map<Value, nat>, objs: map<Value, nat>, vals': map<Value, nat>, objs': map<Value, nat>,
                    empties: iset<Type>, gvs: seq<GlobalVariable>, i: nat)
    requires i < |gvs|
    requires Extends(vals0, vals) && Extends(objs0, objs) && GlobalsMade(vals, objs, empties, gvs[..i])
    requires Extends(vals, vals') && Extends(objs, objs') && GlobalVarMade(vals', objs', empties, gvs[i])
    ensures Extends(vals0, vals') && Extends(objs0, objs') && GlobalsMade(vals', objs', empties, gvs[..i + 1])
  {
    ExtendsTrans(vals0, vals, vals');
    ExtendsTrans(objs0, objs, objs');
    GlobalsMadeGrow(vals, objs, vals', objs', empties, gvs[..i]);
    assert gvs[..i + 1] == gvs[..i] + [gvs[i]];
  }

  /** One round of the first loop of createNodeForGlobals: a defined global
      variable gets its value node, then, as a pointer to its value type, its
      object; a declaration is skipped. */
  method CreateNodesForGlobalVar(nf: AndersNodeFactory, gv: GlobalVariable) returns (res: Result<()>)
    requires nf.Valid() && Prepared(nf.structAnalyzer)
    modifies nf`nodes, nf`root, nf`rank, nf`valueNodeMap, nf`objNodeMap
    ensures nf.Valid()
    ensures old(nf.nodes) <= nf.nodes && Extends(old(nf.valueNodeMap), nf.valueNodeMap) && Extends(old(nf.objNodeMap), nf.objNodeMap)
    ensures gv.isDecl ==>
      (res == Ok(()) && nf.nodes == old(nf.nodes) &&
       nf.valueNodeMap == old(nf.valueNodeMap) && nf.objNodeMap == old(nf.objNodeMap))
    ensures !gv.isDecl && Const(GlobalRef(gv)) in old(nf.valueNodeMap) ==> res == Err(DuplicateValueNode)
    ensures res.Ok? ==> GlobalVarMade(nf.valueNodeMap, nf.objNodeMap, EmptyPointees(nf.structAnalyzer), gv)
  {
    if gv.isDecl {
      return Ok(());
    }
    var v := Const(GlobalRef(gv));
    if v in nf.valueNodeMap {
      return Err(DuplicateValueNode);
    }
    var valNode := nf.CreateValueNode(Some(v));
    res := CreateNodeForPointerVal(nf, v, Ptr(gv.valueType), valNode);
  }

  /** The first loop of createNodeForGlobals, over the module's global
      variables. */
  method CreateGlobalVarNodes(nf: AndersNodeFactory, gvs: seq<GlobalVariable>) returns (res: Result<()>)
    requires nf.Valid() && Prepared(nf.structAnalyzer)
    modifies nf`nodes, nf`root, nf`rank, nf`valueNodeMap, nf`objNodeMap
    ensures nf.Valid()
    ensures old(nf.nodes) <= nf.nodes && Extends(old(nf.valueNodeMap), nf.valueNodeMap) && Extends(old(nf.objNodeMap), nf.objNodeMap)
    ensures res.Ok? ==> GlobalsMade(nf.valueNodeMap, nf.objNodeMap, EmptyPointees(nf.structAnalyzer), gvs)
  {
    ghost var empties := EmptyPointees(nf.structAnalyzer);
    var i := 0;
    while i < |gvs|
      invariant 0 <= i <= |gvs|
      invariant nf.Valid() && Prepared(nf.structAnalyzer) && EmptyPointees(nf.structAnalyzer) == empties
      invariant old(nf.nodes) <= nf.nodes
      invariant Extends(old(nf.valueNodeMap), nf.valueNodeMap) && Extends(old(nf.objNodeMap), nf.objNodeMap)
      invariant GlobalsMade(nf.valueNodeMap, nf.objNodeMap, empties, gvs[..i])
    {
      label Round:
      res := CreateNodesForGlobalVar(nf, gvs[i]);
      if res.Err? {
        ExtendsTrans(old(nf.valueNodeMap), old@Round(nf.valueNodeMap), nf.valueNodeMap);
        ExtendsTrans(old(nf.objNodeMap), old@Round(nf.objNodeMap), nf.objNodeMap);
        return;
      }
      GlobalsStep(old(nf.valueNodeMap), old(nf.objNodeMap), old@Round(nf.valueNodeMap), old@Round(nf.objNodeMap),
                  nf.valueNodeMap, nf.objNodeMap, empties, gvs, i);
      i := i + 1;
    }
    assert gvs[..i] == gvs;
    res := Ok(());
  }

  // ------------------------------------------------------------ functions

  /** A defined function gets a return node unless it returns void. */
  predicate HasReturnNode(f: FunctionDef) {
    Defined(f) && !f.returnsVoid
  }

  /** A defined variadic function gets a vararg node. */
  predicate HasVarargNode(f: FunctionDef) {
    Defined(f) && f.isVarArg
  }

  /** The functions of fs that p picks. */
  function Picked(fs: seq<FunctionDef>, p: FunctionDef -> bool): set<Global> {
    if fs == [] then {}
    else Picked(fs[..|fs| - 1], p) + (if p(fs[|fs| - 1]) then {fs[|fs| - 1].fn} else {})
  }

  /** Picked, element by element. */
  lemma {:induction false} PickedMembers(fs: seq<FunctionDef>, p: FunctionDef -> bool, g: Global)
    ensures g in Picked(fs, p) <==> exists i :: 0 <= i < |fs| && p(fs[i]) && fs[i].fn == g
  {
    if fs != [] {
      var init := fs[..|fs| - 1];
      PickedMembers(init, p, g);
      if g in Picked(init, p) {
        var i :| 0 <= i < |init| && p(init[i]) && init[i].fn == g;
        assert fs[i] == init[i];
      }
      if i :| 0 <= i < |fs| && p(fs[i]) && fs[i].fn == g {
        if i < |fs| - 1 {
          assert init[i] == fs[i];
        }
      }
    }
  }

  lemma PickedStep(fs: seq<FunctionDef>, p: FunctionDef -> bool, i: nat)
    requires i < |fs|
    ensures Picked(fs[..i + 1], p) == Picked(fs[..i], p) + (if p(fs[i]) then {fs[i].fn} else {})
  {
    assert fs[..i + 1][..i] == fs[..i];
  }

  /** The value nodes of a defined function: one per formal argument, and
      one for the function itself when its address is taken. */
  ghost predicate FunctionMade(vals: map<Value, nat>, f: FunctionDef) {
    Defined(f) ==>
      (forall j :: 0 <= j < |f.args| ==> f.args[j] in vals) &&
      (f.addressTaken ==> Const(GlobalRef(f.fn)) in vals)
  }

  ghost predicate FunctionsMade(vals: map<Value, nat>, fs: seq<FunctionDef>) {
    forall i :: 0 <= i < |fs| ==> FunctionMade(vals, fs[i])
  }

  lemma FunctionsMadeGrow(vals: map<Value, nat>, vals': map<Value, nat>, fs: seq<FunctionDef>)
    requires FunctionsMade(vals, fs) && Extends(vals, vals')
    ensures FunctionsMade(vals', fs)
  {
    forall i | 0 <= i < |fs|
      ensures FunctionMade(vals', fs[i])
    {
      assert FunctionMade(vals, fs[i]);
    }
  }

  /** b extends a and c extends b. */
  lemma ExtendsTrans<K, V>(a: map<K, V>, b: map<K, V>, c: map<K, V>)
    requires Extends(a, b) && Extends(b, c)
    ensures Extends(a, c)
  {
  }

  /** Keys gained one round at a time add up. */
  lemma KeysStep<K>(o: set<K>, prev: set<K>, next: set<K>, done: set<K>, added: set<K>, done': set<K>)
    requires prev == o + done && next == prev + added && done' == done + added
    ensures next == o + done'
  {
  }

  /** The return and vararg nodes of a defined function; it fails exactly
      when the function already has one of the nodes it needs. */
  method CreateSignatureNodes(nf: AndersNodeFactory, f: FunctionDef) returns (res: Result<()>)
    requires nf.Valid() && Defined(f)
    modifies nf`nodes, nf`root, nf`rank, nf`returnMap, nf`varargMap
    ensures nf.Valid() && old(nf.nodes) <= nf.nodes
    ensures Extends(old(nf.returnMap), nf.returnMap) && Extends(old(nf.varargMap), nf.varargMap)
    ensures res.Err? <==>
      (HasReturnNode(f) && f.fn in old(nf.returnMap)) || (HasVarargNode(f) && f.fn in old(nf.varargMap))
    ensures res.Err? ==> res.fault == DuplicateValueNode
    ensures res.Ok? ==> nf.returnMap.Keys == old(nf.returnMap).Keys + (if HasReturnNode(f) then {f.fn} else {})
    ensures res.Ok? ==> nf.varargMap.Keys == old(nf.varargMap).Keys + (if HasVarargNode(f) then {f.fn} else {})
  {
    if !f.returnsVoid {
      if f.fn in nf.returnMap {
        return Err(DuplicateValueNode);
      }
      var _ := nf.CreateReturnNode(f.fn);
    }
    if f.isVarArg {
      if f.fn in nf.varargMap {
        return Err(DuplicateValueNode);
      }
      var _ := nf.CreateVarargNode(f.fn);
    }
    res := Ok(());
  }

  /** The value node of a function whose address is taken; it fails exactly
      when the function already has one. */
  method CreateAddressNode(nf: AndersNodeFactory, f: FunctionDef) returns (res: Result<()>)
    requires nf.Valid()
    modifies nf`nodes, nf`root, nf`rank, nf`valueNodeMap
    ensures nf.Valid() && old(nf.nodes) <= nf.nodes && Extends(old(nf.valueNodeMap), nf.valueNodeMap)
    ensures res.Err? <==> f.addressTaken && Const(GlobalRef(f.fn)) in old(nf.valueNodeMap)
    ensures res.Err? ==> res.fault == DuplicateValueNode
    ensures !f.addressTaken ==> nf.nodes == old(nf.nodes) && nf.valueNodeMap == old(nf.valueNodeMap)
    ensures res.Ok? && f.addressTaken ==> Const(GlobalRef(f.fn)) in nf.valueNodeMap
  {
    if f.addressTaken {
      var v := Const(GlobalRef(f.fn));
      if v in nf.valueNodeMap {
        return Err(DuplicateValueNode);
      }
      var _ := nf.CreateValueNode(Some(v));
    }
    res := Ok(());
  }

  /** One round of the second loop of createNodeForGlobals: a defined
      function gets its return node unless it returns void, its vararg node
      if it is variadic, a value node per formal argument, and one for itself
      if its address is taken; a declaration or intrinsic is skipped. */
  method CreateNodesForFunction(nf: AndersNodeFactory, f: FunctionDef) returns (res: Result<()>)
    requires nf.Valid()
    modifies nf`nodes, nf`root, nf`rank, nf`valueNodeMap, nf`returnMap, nf`varargMap
    ensures nf.Valid() && old(nf.nodes) <= nf.nodes && Extends(old(nf.valueNodeMap), nf.valueNodeMap)
    ensures Extends(old(nf.returnMap), nf.returnMap) && Extends(old(nf.varargMap), nf.varargMap)
    ensures !Defined(f) ==>
      (res == Ok(()) && nf.nodes == old(nf.nodes) && nf.valueNodeMap == old(nf.valueNodeMap) &&
       nf.returnMap == old(nf.returnMap) && nf.varargMap == old(nf.varargMap))
    ensures res.Ok? ==> nf.returnMap.Keys == old(nf.returnMap).Keys + (if HasReturnNode(f) then {f.fn} else {})
    ensures res.Ok? ==> nf.varargMap.Keys == old(nf.varargMap).Keys + (if HasVarargNode(f) then {f.fn} else {})
    ensures res.Ok? ==> FunctionMade(nf.valueNodeMap, f)
  {
    if !Defined(f) {
      return Ok(());
    }
    ghost var vals0 := nf.valueNodeMap;
    res := CreateSignatureNodes(nf, f);
    if res.Err? {
      return;
    }
    ghost var n1 := |nf.nodes|;
    res := CreateValueNodes(nf, f.args);
    if res.Err? {
      return;
    }
    AddedValues(vals0, f.args, n1);
    ghost var vals1 := nf.valueNodeMap;
    res := CreateAddressNode(nf, f);
    ExtendsTrans(vals0, vals1, nf.valueNodeMap);
    if res.Ok? {
      forall j | 0 <= j < |f.args|
        ensures f.args[j] in nf.valueNodeMap
      {
        assert f.args[j] in vals1;
      }
    }
  }

  /** One more function made: the lookups only grew, and the functions with
      return and vararg nodes are those picked so far. */
  lemma FunctionsStep(vals0: map<Value, nat>, rets0: map<Global, nat>, vargs0: map<Global, nat>, vals: map<Value, nat>, rets: map<Global, nat>, vargs: map<Global, nat>,
                      vals': map<Value, nat>, rets': map<Global, nat>, vargs': map<Global, nat>, fs: seq<FunctionDef>, i: nat)
    requires i < |fs|
    requires Extends(vals0, vals) && Extends(rets0, rets) && Extends(vargs0, vargs)
    requires rets.Keys == rets0.Keys + Picked(fs[..i], HasReturnNode)
    requires vargs.Keys == vargs0.Keys + Picked(fs[..i], HasVarargNode)
    requires FunctionsMade(vals, fs[..i])
    requires Extends(vals, vals') && Extends(rets, rets') && Extends(vargs, vargs')
    requires rets'.Keys == rets.Keys + (if HasReturnNode(fs[i]) then {fs[i].fn} else {})
    requires vargs'.Keys == vargs.Keys + (if HasVarargNode(fs[i]) then {fs[i].fn} else {})
    requires FunctionMade(vals', fs[i])
    ensures Extends(vals0, vals') && Extends(rets0, rets') && Extends(vargs0, vargs')
    ensures rets'.Keys == rets0.Keys + Picked(fs[..i + 1], HasReturnNode)
    ensures vargs'.Keys == vargs0.Keys + Picked(fs[..i + 1], HasVarargNode)
    ensures FunctionsMade(vals', fs[..i + 1])
  {
    ExtendsTrans(vals0, vals, vals');
    ExtendsTrans(rets0, rets, rets');
    ExtendsTrans(vargs0, vargs, vargs');
    FunctionsMadeGrow(vals, vals', fs[..i]);
    PickedStep(fs, HasReturnNode, i);
    PickedStep(fs, HasVarargNode, i);
    KeysStep(rets0.Keys, rets.Keys, rets'.Keys, Picked(fs[..i], HasReturnNode),
             if HasReturnNode(fs[i]) then {fs[i].fn} else {}, Picked(fs[..i + 1], HasReturnNode));
    KeysStep(vargs0.Keys, vargs.Keys, vargs'.Keys, Picked(fs[..i], HasVarargNode),
             if HasVarargNode(fs[i]) then {fs[i].fn} else {}, Picked(fs[..i + 1], HasVarargNode));
    assert fs[..i + 1] == fs[..i] + [fs[i]];
  }

  /** The second loop of createNodeForGlobals, over the module's functions. */
  method CreateFunctionNodes(nf: AndersNodeFactory, fs: seq<FunctionDef>) returns (res: Result<()>)
    requires nf.Valid()
    modifies nf`nodes, nf`root, nf`rank, nf`valueNodeMap, nf`returnMap, nf`varargMap
    ensures nf.Valid() && old(nf.nodes) <= nf.nodes && Extends(old(nf.valueNodeMap), nf.valueNodeMap)
    ensures Extends(old(nf.returnMap), nf.returnMap) && Extends(old(nf.varargMap), nf.varargMap)
    ensures res.Ok? ==> nf.returnMap.Keys == old(nf.returnMap).Keys + Picked(fs, HasReturnNode)
    ensures res.Ok? ==> nf.varargMap.Keys == old(nf.varargMap).Keys + Picked(fs, HasVarargNode)
    ensures res.Ok? ==> FunctionsMade(nf.valueNodeMap, fs)
  {
    var i := 0;
    while i < |fs|
      invariant 0 <= i <= |fs|
      invariant nf.Valid() && old(nf.nodes) <= nf.nodes
      invariant Extends(old(nf.valueNodeMap), nf.valueNodeMap)
      invariant Extends(old(nf.returnMap), nf.returnMap) && Extends(old(nf.varargMap), nf.varargMap)
      invariant nf.returnMap.Keys == old(nf.returnMap).Keys + Picked(fs[..i], HasReturnNode)
      invariant nf.varargMap.Keys == old(nf.varargMap).Keys + Picked(fs[..i], HasVarargNode)
      invariant FunctionsMade(nf.valueNodeMap, fs[..i])
    {
      label Round:
      res := CreateNodesForFunction(nf, fs[i]);
      if res.Err? {
        ExtendsTrans(old(nf.valueNodeMap), old@Round(nf.valueNodeMap), nf.valueNodeMap);
        ExtendsTrans(old(nf.returnMap), old@Round(nf.returnMap), nf.returnMap);
        ExtendsTrans(old(nf.varargMap), old@Round(nf.varargMap), nf.varargMap);
        return;
      }
      FunctionsStep(old(nf.valueNodeMap), old(nf.returnMap), old(nf.varargMap),
                    old@Round(nf.valueNodeMap), old@Round(nf.returnMap), old@Round(nf.varargMap),
                    nf.valueNodeMap, nf.returnMap, nf.varargMap, fs, i);
      i := i + 1;
    }
    assert fs[..i] == fs;
    res := Ok(());
  }

  /** createNodeForGlobals: the nodes of the global variables, then those
      of the functions. */
  method CreateNodeForGlobals(nf: AndersNodeFactory, m: Module) returns (res: Result<()>)
    requires nf.Valid() && Prepared(nf.structAnalyzer)
    modifies nf`nodes, nf`root, nf`rank, nf`valueNodeMap, nf`objNodeMap, nf`returnMap, nf`varargMap
    ensures nf.Valid() && Grew(nf)
    ensures res.Ok? ==> GlobalsMade(nf.valueNodeMap, nf.objNodeMap, EmptyPointees(nf.structAnalyzer), m.globals)
    ensures res.Ok? ==> FunctionsMade(nf.valueNodeMap, m.functions)
    ensures res.Ok? ==> nf.returnMap.Keys == old(nf.returnMap).Keys + Picked(m.functions, HasReturnNode)
    ensures res.Ok? ==> nf.varargMap.Keys == old(nf.varargMap).Keys + Picked(m.functions, HasVarargNode)
  {
    res := CreateGlobalVarNodes(nf, m.globals);
    if res.Err? {
      return;
    }
    ghost var vals, objs := nf.valueNodeMap, nf.objNodeMap;
    res := CreateFunctionNodes(nf, m.functions);
    if res.Ok? {
      GlobalsMadeGrow(vals, objs, nf.valueNodeMap, nf.objNodeMap, EmptyPointees(nf.structAnalyzer), m.globals);
    }
  }

  // ------------------------------------------------------------ bodies

  /** The allocator signature of a call whose callee the allocator table
      knows by name. */
  function AllocatorOf(inst: Instruction, isAllocFn: string -> Option<AllocSig>): Option<AllocSig> {
    if inst.op.Call? && inst.op.callee.Some? then isAllocFn(inst.op.callee.value) else None
  }

  /** An alloca has the object of the pointer it yields; a call to an
      allocator has its heap object. */
  ghost predicate AllocationMade(objs: map<Value, nat>, empties: iset<Type>, inst: Instruction,
                                 isAllocFn: string -> Option<AllocSig>) {
    (inst.op.Alloca? ==> HasObject(objs, empties, inst, inst.ty)) &&
    (AllocatorOf(inst, isAllocFn).Some? ==> inst in objs)
  }

  ghost predicate AllocationsMade(objs: map<Value, nat>, empties: iset<Type>, body: seq<Instruction>,
                                  isAllocFn: string -> Option<AllocSig>) {
    forall i :: 0 <= i < |body| ==> AllocationMade(objs, empties, body[i], isAllocFn)
  }

  lemma AllocationsMadeGrow(objs: map<Value, nat>, objs': map<Value, nat>, empties: iset<Type>,
                            body: seq<Instruction>, isAllocFn: string -> Option<AllocSig>)
    requires AllocationsMade(objs, empties, body, isAllocFn) && Extends(objs, objs')
    ensures AllocationsMade(objs', empties, body, isAllocFn)
  {
    forall i | 0 <= i < |body|
      ensures AllocationMade(objs', empties, body[i], isAllocFn)
    {
      assert AllocationMade(objs, empties, body[i], isAllocFn);
    }
  }

  /** One round of the second loop over a function's instructions: an
      alloca must have its value node and a pointer type, and then gets the
      object createNodeForPointerVal makes; a call to an allocator gets a
      heap object; any other instruction is left alone. */
  method HandleAllocation(nf: AndersNodeFactory, inst: Instruction, isAllocFn: string -> Option<AllocSig>)
    returns (res: Result<()>)
    requires nf.Valid() && Prepared(nf.structAnalyzer)
    modifies nf`nodes, nf`root, nf`rank, nf`objNodeMap
    ensures nf.Valid() && ObjectsGrew(nf)
    ensures !inst.op.Alloca? && AllocatorOf(inst, isAllocFn).None? ==>
      res == Ok(()) && nf.nodes == old(nf.nodes) && nf.objNodeMap == old(nf.objNodeMap)
    ensures inst.op.Alloca? && IdOf(nf.valueNodeMap, inst) == InvalidIndex ==> res == Err(MissingValueNode)
    ensures inst.op.Alloca? && IdOf(nf.valueNodeMap, inst) != InvalidIndex && !inst.ty.Ptr? ==> res == Err(NonPointerAllocation)
    ensures res.Ok? ==> AllocationMade(nf.objNodeMap, EmptyPointees(nf.structAnalyzer), inst, isAllocFn)
  {
    match inst.op
    case Alloca =>
      var valNode := nf.ValueNodeOf(inst);
      if valNode == InvalidIndex {
        return Err(MissingValueNode);
      }
      if !inst.ty.Ptr? {
        return Err(NonPointerAllocation);
      }
      res := CreateNodeForPointerVal(nf, inst, inst.ty, valNode);
    case Call(callee, _, _) =>
      if callee.Some? {
        var sig := isAllocFn(callee.value);
        if sig.Some? {
          res := CreateNodeForHeapObject(nf, inst, sig.value);
          return;
        }
      }
      res := Ok(());
    case OtherOp =>
      res := Ok(());
  }

  /** One more allocation made. */
  lemma AllocationsStep(objs0: map<Value, nat>, objs: map<Value, nat>, objs': map<Value, nat>, empties: iset<Type>,
                        body: seq<Instruction>, i: nat, isAllocFn: string -> Option<AllocSig>)
    requires i < |body|
    requires Extends(objs0, objs) && AllocationsMade(objs, empties, body[..i], isAllocFn)
    requires Extends(objs, objs') && AllocationMade(objs', empties, body[i], isAllocFn)
    ensures Extends(objs0, objs') && AllocationsMade(objs', empties, body[..i + 1], isAllocFn)
  {
    ExtendsTrans(objs0, objs, objs');
    AllocationsMadeGrow(objs, objs', empties, body[..i], isAllocFn);
    assert body[..i + 1] == body[..i] + [body[i]];
  }

  /** The second loop over a function's instructions. */
  method HandleAllocations(nf: AndersNodeFactory, body: seq<Instruction>, isAllocFn: string -> Option<AllocSig>)
    returns (res: Result<()>)
    requires nf.Valid() && Prepared(nf.structAnalyzer)
    modifies nf`nodes, nf`root, nf`rank, nf`objNodeMap
    ensures nf.Valid() && ObjectsGrew(nf)
    ensures res.Ok? ==> AllocationsMade(nf.objNodeMap, EmptyPointees(nf.structAnalyzer), body, isAllocFn)
  {
    ghost var empties := EmptyPointees(nf.structAnalyzer);
    var i := 0;
    while i < |body|
      invariant 0 <= i <= |body|
      invariant nf.Valid() && Prepared(nf.structAnalyzer) && EmptyPointees(nf.structAnalyzer) == empties
      invariant ObjectsGrew(nf)
      invariant AllocationsMade(nf.objNodeMap, empties, body[..i], isAllocFn)
    {
      label Round:
      res := HandleAllocation(nf, body[i], isAllocFn);
      if res.Err? {
        ExtendsTrans(old(nf.objNodeMap), old@Round(nf.objNodeMap), nf.objNodeMap);
        return;
      }
      AllocationsStep(old(nf.objNodeMap), old@Round(nf.objNodeMap), nf.objNodeMap, empties, body, i, isAllocFn);
      i := i + 1;
    }
    assert body[..i] == body;
    res := Ok(());
  }

  /** The function bodies populateNodeFactory scans: those of defined
      functions that are not allocators themselves. */
  predicate Scanned(f: FunctionDef, isAllocFn: string -> Option<AllocSig>) {
    Defined(f) && isAllocFn(f.fn.name).None?
  }

  /** A scanned body has a value node per instruction and its allocations. */
  ghost predicate BodyMade(vals: map<Value, nat>, objs: map<Value, nat>, empties: iset<Type>, f: FunctionDef,
                           isAllocFn: string -> Option<AllocSig>) {
    Scanned(f, isAllocFn) ==>
      (forall j :: 0 <= j < |f.body| ==> f.body[j] in vals) && AllocationsMade(objs, empties, f.body, isAllocFn)
  }

  ghost predicate BodiesMade(vals: map<Value, nat>, objs: map<Value, nat>, empties: iset<Type>, fs: seq<FunctionDef>,
                             isAllocFn: string -> Option<AllocSig>) {
    forall i :: 0 <= i < |fs| ==> BodyMade(vals, objs, empties, fs[i], isAllocFn)
  }

  lemma BodiesMadeGrow(vals: map<Value, nat>, objs: map<Value, nat>, vals': map<Value, nat>, objs': map<Value, nat>,
                       empties: iset<Type>, fs: seq<FunctionDef>, isAllocFn: string -> Option<AllocSig>)
    requires BodiesMade(vals, objs, empties, fs, isAllocFn) && Extends(vals, vals') && Extends(objs, objs')
    ensures BodiesMade(vals', objs', empties, fs, isAllocFn)
  {
    forall i | 0 <= i < |fs|
      ensures BodyMade(vals', objs', empties, fs[i], isAllocFn)
    {
      assert BodyMade(vals, objs, empties, fs[i], isAllocFn);
      if Scanned(fs[i], isAllocFn) {
        AllocationsMadeGrow(objs, objs', empties, fs[i].body, isAllocFn);
      }
    }
  }

  /** One round of the loop over a module's functions in populateNodeFactory:
      a scanned body gets a value node per instruction, then its
      allocations. */
  method CreateNodesForBody(nf: AndersNodeFactory, f: FunctionDef, isAllocFn: string -> Option<AllocSig>)
    returns (res: Result<()>)
    requires nf.Valid() && Prepared(nf.structAnalyzer)
    modifies nf`nodes, nf`root, nf`rank, nf`valueNodeMap, nf`objNodeMap
    ensures nf.Valid()
    ensures old(nf.nodes) <= nf.nodes && Extends(old(nf.valueNodeMap), nf.valueNodeMap) && Extends(old(nf.objNodeMap), nf.objNodeMap)
    ensures !Scanned(f, isAllocFn) ==>
      (res == Ok(()) && nf.nodes == old(nf.nodes) &&
       nf.valueNodeMap == old(nf.valueNodeMap) && nf.objNodeMap == old(nf.objNodeMap))
    ensures Scanned(f, isAllocFn) && !NewAndDistinct(old(nf.valueNodeMap), f.body) ==> res == Err(DuplicateValueNode)
    ensures res.Ok? ==> BodyMade(nf.valueNodeMap, nf.objNodeMap, EmptyPointees(nf.structAnalyzer), f, isAllocFn)
  {
    if !Scanned(f, isAllocFn) {
      return Ok(());
    }
    ghost var vals0, n0 := nf.valueNodeMap, |nf.nodes|;
    res := CreateValueNodes(nf, f.body);
    if res.Err? {
      return;
    }
    AddedValues(vals0, f.body, n0);
    res := HandleAllocations(nf, f.body, isAllocFn);
  }

  /** One more body made. */
  lemma BodiesStep(vals0: map<Value, nat>, objs0: map<Value, nat>, vals: map<Value, nat>, objs: map<Value, nat>, vals': map<Value, nat>, objs': map<Value, nat>,
                   empties: iset<Type>, fs: seq<FunctionDef>, i: nat, isAllocFn: string -> Option<AllocSig>)
    requires i < |fs|
    requires Extends(vals0, vals) && Extends(objs0, objs) && BodiesMade(vals, objs, empties, fs[..i], isAllocFn)
    requires Extends(vals, vals') && Extends(objs, objs') && BodyMade(vals', objs', empties, fs[i], isAllocFn)
    ensures Extends(vals0, vals') && Extends(objs0, objs') && BodiesMade(vals', objs', empties, fs[..i + 1], isAllocFn)
  {
    ExtendsTrans(vals0, vals, vals');
    ExtendsTrans(objs0, objs, objs');
    BodiesMadeGrow(vals, objs, vals', objs', empties, fs[..i], isAllocFn);
    assert fs[..i + 1] == fs[..i] + [fs[i]];
  }

  /** The loop over a module's functions in populateNodeFactory. */
  method CreateBodiesNodes(nf: AndersNodeFactory, fs: seq<FunctionDef>, isAllocFn: string -> Option<AllocSig>)
    returns (res: Result<()>)
    requires nf.Valid() && Prepared(nf.structAnalyzer)
    modifies nf`nodes, nf`root, nf`rank, nf`valueNodeMap, nf`objNodeMap
    ensures nf.Valid()
    ensures old(nf.nodes) <= nf.nodes && Extends(old(nf.valueNodeMap), nf.valueNodeMap) && Extends(old(nf.objNodeMap), nf.objNodeMap)
    ensures res.Ok? ==> BodiesMade(nf.valueNodeMap, nf.objNodeMap, EmptyPointees(nf.structAnalyzer), fs, isAllocFn)
  {
    ghost var empties := EmptyPointees(nf.structAnalyzer);
    var i := 0;
    while i < |fs|
      invariant 0 <= i <= |fs|
      invariant nf.Valid() && Prepared(nf.structAnalyzer) && EmptyPointees(nf.structAnalyzer) == empties
      invariant old(nf.nodes) <= nf.nodes
      invariant Extends(old(nf.valueNodeMap), nf.valueNodeMap) && Extends(old(nf.objNodeMap), nf.objNodeMap)
      invariant BodiesMade(nf.valueNodeMap, nf.objNodeMap, empties, fs[..i], isAllocFn)
    {
      label Round:
      res := CreateNodesForBody(nf, fs[i], isAllocFn);
      if res.Err? {
        ExtendsTrans(old(nf.valueNodeMap), old@Round(nf.valueNodeMap), nf.valueNodeMap);
        ExtendsTrans(old(nf.objNodeMap), old@Round(nf.objNodeMap), nf.objNodeMap);
        return;
      }
      BodiesStep(old(nf.valueNodeMap), old(nf.objNodeMap), old@Round(nf.valueNodeMap), old@Round(nf.objNodeMap),
                 nf.valueNodeMap, nf.objNodeMap, empties, fs, i, isAllocFn);
      i := i + 1;
    }
    assert fs[..i] == fs;
    res := Ok(());
  }

  // ------------------------------------------------------------ modules

  /** Everything populateNodeFactory makes for a module is in the lookups. */
  ghost predicate ModuleMade(vals: map<Value, nat>, objs: map<Value, nat>, empties: iset<Type>, m: Module,
                             isAllocFn: string -> Option<AllocSig>) {
    GlobalsMade(vals, objs, empties, m.globals) && FunctionsMade(vals, m.functions) &&
    BodiesMade(vals, objs, empties, m.functions, isAllocFn)
  }

  lemma ModuleMadeGrow(vals: map<Value, nat>, objs: map<Value, nat>, vals': map<Value, nat>, objs': map<Value, nat>,
                       empties: iset<Type>, m: Module, isAllocFn: string -> Option<AllocSig>)
    requires ModuleMade(vals, objs, empties, m, isAllocFn) && Extends(vals, vals') && Extends(objs, objs')
    ensures ModuleMade(vals', objs', empties, m, isAllocFn)
  {
    GlobalsMadeGrow(vals, objs, vals', objs', empties, m.globals);
    FunctionsMadeGrow(vals, vals', m.functions);
    BodiesMadeGrow(vals, objs, vals', objs', empties, m.functions, isAllocFn);
  }

  /** The globals, then the bodies of a module made. */
  lemma ModuleStep(vals0: map<Value, nat>, objs0: map<Value, nat>, vals1: map<Value, nat>, objs1: map<Value, nat>, vals2: map<Value, nat>, objs2: map<Value, nat>,
                   empties: iset<Type>, m: Module, isAllocFn: string -> Option<AllocSig>)
    requires Extends(vals0, vals1) && Extends(objs0, objs1)
    requires GlobalsMade(vals1, objs1, empties, m.globals) && FunctionsMade(vals1, m.functions)
    requires Extends(vals1, vals2) && Extends(objs1, objs2)
    requires BodiesMade(vals2, objs2, empties, m.functions, isAllocFn)
    ensures Extends(vals0, vals2) && Extends(objs0, objs2)
    ensures ModuleMade(vals2, objs2, empties, m, isAllocFn)
  {
    ExtendsTrans(vals0, vals1, vals2);
    ExtendsTrans(objs0, objs1, objs2);
    GlobalsMadeGrow(vals1, objs1, vals2, objs2, empties, m.globals);
    FunctionsMadeGrow(vals1, vals2, m.functions);
  }

  /** One round of the loop over the modules of populateNodeFactory: the
      factory takes the module's data layout, then the module's globals get
      their nodes, then its function bodies. */
  method PopulateModule(nf: AndersNodeFactory, m: Module, isAllocFn: string -> Option<AllocSig>)
    returns (res: Result<()>)
    requires nf.Valid() && Prepared(nf.structAnalyzer)
    modifies nf`dataLayout, nf`nodes, nf`root, nf`rank, nf`valueNodeMap, nf`objNodeMap, nf`returnMap, nf`varargMap
    ensures nf.Valid() && Grew(nf) && nf.dataLayout == m.dl
    ensures res.Ok? ==> ModuleMade(nf.valueNodeMap, nf.objNodeMap, EmptyPointees(nf.structAnalyzer), m, isAllocFn)
    ensures res.Ok? ==> nf.returnMap.Keys == old(nf.returnMap).Keys + Picked(m.functions, HasReturnNode)
    ensures res.Ok? ==> nf.varargMap.Keys == old(nf.varargMap).Keys + Picked(m.functions, HasVarargNode)
  {
    ghost var empties := EmptyPointees(nf.structAnalyzer);
    nf.SetDataLayout(m.dl);
    res := CreateNodeForGlobals(nf, m);
    if res.Err? {
      return;
    }
    assert EmptyPointees(nf.structAnalyzer) == empties;
    label Bodies:
    res := CreateBodiesNodes(nf, m.functions, isAllocFn);
    if res.Ok? {
      assert EmptyPointees(nf.structAnalyzer) == empties;
      ModuleStep(old(nf.valueNodeMap), old(nf.objNodeMap), old@Bodies(nf.valueNodeMap), old@Bodies(nf.objNodeMap),
                 nf.valueNodeMap, nf.objNodeMap, empties, m, isAllocFn);
    } else {
      ExtendsTrans(old(nf.valueNodeMap), old@Bodies(nf.valueNodeMap), nf.valueNodeMap);
      ExtendsTrans(old(nf.objNodeMap), old@Bodies(nf.objNodeMap), nf.objNodeMap);
    }
  }

  /** The functions of all of ms that p picks. */
  function AllPicked(ms: seq<Module>, p: FunctionDef -> bool): set<Global> {
    if ms == [] then {} else AllPicked(ms[..|ms| - 1], p) + Picked(ms[|ms| - 1].functions, p)
  }

  /** AllPicked, function by function. */
  lemma {:induction false} AllPickedMembers(ms: seq<Module>, p: FunctionDef -> bool, g: Global)
    ensures g in AllPicked(ms, p) <==>
      exists i, j :: 0 <= i < |ms| && 0 <= j < |ms[i].functions| && p(ms[i].functions[j]) && ms[i].functions[j].fn == g
  {
    if ms != [] {
      var init, last := ms[..|ms| - 1], ms[|ms| - 1];
      AllPickedMembers(init, p, g);
      PickedMembers(last.functions, p, g);
      if g in AllPicked(init, p) {
        var i, j :| 0 <= i < |init| && 0 <= j < |init[i].functions| && p(init[i].functions[j]) && init[i].functions[j].fn == g;
        assert ms[i] == init[i];
      }
      if g in Picked(last.functions, p) {
        var j :| 0 <= j < |last.functions| && p(last.functions[j]) && last.functions[j].fn == g;
        assert ms[|ms| - 1] == last;
      }
      if i, j :| 0 <= i < |ms| && 0 <= j < |ms[i].functions| && p(ms[i].functions[j]) && ms[i].functions[j].fn == g {
        if i < |ms| - 1 {
          assert init[i] == ms[i];
        }
      }
    }
  }

  lemma AllPickedStep(ms: seq<Module>, p: FunctionDef -> bool, i: nat)
    requires i < |ms|
    ensures AllPicked(ms[..i + 1], p) == AllPicked(ms[..i], p) + Picked(ms[i].functions, p)
  {
    assert ms[..i + 1][..i] == ms[..i];
  }

  ghost predicate ModulesMade(vals: map<Value, nat>, objs: map<Value, nat>, empties: iset<Type>, ms: seq<Module>,
                              isAllocFn: string -> Option<AllocSig>) {
    forall i :: 0 <= i < |ms| ==> ModuleMade(vals, objs, empties, ms[i], isAllocFn)
  }

  lemma ModulesMadeGrow(vals: map<Value, nat>, objs: map<Value, nat>, vals': map<Value, nat>, objs': map<Value, nat>,
                        empties: iset<Type>, ms: seq<Module>, isAllocFn: string -> Option<AllocSig>)
    requires ModulesMade(vals, objs, empties, ms, isAllocFn) && Extends(vals, vals') && Extends(objs, objs')
    ensures ModulesMade(vals', objs', empties, ms, isAllocFn)
  {
    forall i | 0 <= i < |ms|
      ensures ModuleMade(vals', objs', empties, ms[i], isAllocFn)
    {
      ModuleMadeGrow(vals, objs, vals', objs', empties, ms[i], isAllocFn);
    }
  }

  /** What the modules ms have made, seen from the lookups (vals0, objs0,
      rets0, vargs0) before them: the lookups only gained entries, the
      functions with return and vararg nodes are those the modules pick, and
      every module is made. */
  ghost predicate Populated(vals0: map<Value, nat>, objs0: map<Value, nat>, rets0: map<Global, nat>, vargs0: map<Global, nat>,
                            vals: map<Value, nat>, objs: map<Value, nat>, rets: map<Global, nat>, vargs: map<Global, nat>,
                            empties: iset<Type>, ms: seq<Module>, isAllocFn: string -> Option<AllocSig>) {
    Extends(vals0, vals) && Extends(objs0, objs) && Extends(rets0, rets) && Extends(vargs0, vargs) &&
    rets.Keys == rets0.Keys + AllPicked(ms, HasReturnNode) &&
    vargs.Keys == vargs0.Keys + AllPicked(ms, HasVarargNode) &&
    ModulesMade(vals, objs, empties, ms, isAllocFn)
  }

  /** Nothing is populated before the first module. */
  lemma PopulatedStart(vals: map<Value, nat>, objs: map<Value, nat>, rets: map<Global, nat>, vargs: map<Global, nat>,
                       empties: iset<Type>, ms: seq<Module>, isAllocFn: string -> Option<AllocSig>)
    ensures Populated(vals, objs, rets, vargs, vals, objs, rets, vargs, empties, ms[..0], isAllocFn)
  {
    assert ms[..0] == [];
  }

  /** One more module populated. */
  lemma PopulatedStep(vals0: map<Value, nat>, objs0: map<Value, nat>, rets0: map<Global, nat>, vargs0: map<Global, nat>,
                      vals: map<Value, nat>, objs: map<Value, nat>, rets: map<Global, nat>, vargs: map<Global, nat>,
                      vals': map<Value, nat>, objs': map<Value, nat>, rets': map<Global, nat>, vargs': map<Global, nat>,
                      empties: iset<Type>, ms: seq<Module>, i: nat, isAllocFn: string -> Option<AllocSig>)
    requires i < |ms|
    requires Populated(vals0, objs0, rets0, vargs0, vals, objs, rets, vargs, empties, ms[..i], isAllocFn)
    requires Extends(vals, vals') && Extends(objs, objs') && Extends(rets, rets') && Extends(vargs, vargs')
    requires rets'.Keys == rets.Keys + Picked(ms[i].functions, HasReturnNode)
    requires vargs'.Keys == vargs.Keys + Picked(ms[i].functions, HasVarargNode)
    requires ModuleMade(vals', objs', empties, ms[i], isAllocFn)
    ensures Populated(vals0, objs0, rets0, vargs0, vals', objs', rets', vargs', empties, ms[..i + 1], isAllocFn)
  {
    ExtendsTrans(vals0, vals, vals');
    ExtendsTrans(objs0, objs, objs');
    ExtendsTrans(rets0, rets, rets');
    ExtendsTrans(vargs0, vargs, vargs');
    ModulesMadeGrow(vals, objs, vals', objs', empties, ms[..i], isAllocFn);
    AllPickedStep(ms, HasReturnNode, i);
    AllPickedStep(ms, HasVarargNode, i);
    assert ms[..i + 1] == ms[..i] + [ms[i]];
  }

  /** One round of the loop over the modules, with what it adds to the
      modules populated before it. */
  method PopulateNext(nf: AndersNodeFactory, ms: seq<Module>, i: nat, isAllocFn: string -> Option<AllocSig>,
                      ghost vals0: map<Value, nat>, ghost objs0: map<Value, nat>,
                      ghost rets0: map<Global, nat>, ghost vargs0: map<Global, nat>, ghost empties: iset<Type>)
    returns (res: Result<()>)
    requires i < |ms| && nf.Valid() && Prepared(nf.structAnalyzer) && EmptyPointees(nf.structAnalyzer) == empties
    requires Populated(vals0, objs0, rets0, vargs0, nf.valueNodeMap, nf.objNodeMap, nf.returnMap, nf.varargMap,
                       empties, ms[..i], isAllocFn)
    modifies nf`dataLayout, nf`nodes, nf`root, nf`rank, nf`valueNodeMap, nf`objNodeMap, nf`returnMap, nf`varargMap
    ensures nf.Valid() && old(nf.nodes) <= nf.nodes && nf.dataLayout == ms[i].dl
    ensures Prepared(nf.structAnalyzer) && EmptyPointees(nf.structAnalyzer) == empties
    ensures res.Ok? ==>
      Populated(vals0, objs0, rets0, vargs0, nf.valueNodeMap, nf.objNodeMap, nf.returnMap, nf.varargMap,
                empties, ms[..i + 1], isAllocFn)
  {
    res := PopulateModule(nf, ms[i], isAllocFn);
    if res.Ok? {
      PopulatedStep(vals0, objs0, rets0, vargs0,
                    old(nf.valueNodeMap), old(nf.objNodeMap), old(nf.returnMap), old(nf.varargMap),
                    nf.valueNodeMap, nf.objNodeMap, nf.returnMap, nf.varargMap, empties, ms, i, isAllocFn);
    }
  }

  /** populateNodeFactory: every module in turn, each under its own data
      layout. Afterwards every defined global, argument, instruction and
      allocation of every module has its nodes, exactly the defined functions
      that return a value have a return node and exactly the defined variadic
      functions have a vararg node; the factory is left with the data layout
      of the last module. */
  method PopulateNodeFactory(nf: AndersNodeFactory, ms: seq<Module>, isAllocFn: string -> Option<AllocSig>)
    returns (res: Result<()>)
    requires nf.Valid() && nf.structAnalyzer.Valid(None)
    modifies nf`dataLayout, nf`nodes, nf`root, nf`rank, nf`valueNodeMap, nf`objNodeMap, nf`returnMap, nf`varargMap
    ensures nf.Valid() && old(nf.nodes) <= nf.nodes
    ensures res.Ok? ==>
      Populated(old(nf.valueNodeMap), old(nf.objNodeMap), old(nf.returnMap), old(nf.varargMap),
                nf.valueNodeMap, nf.objNodeMap, nf.returnMap, nf.varargMap, EmptyPointees(nf.structAnalyzer), ms, isAllocFn)
    ensures res.Ok? ==> nf.dataLayout == if ms == [] then old(nf.dataLayout) else ms[|ms| - 1].dl
  {
    AnalyzerPrepared(nf.structAnalyzer);
    res := PopulateModules(nf, ms, isAllocFn);
  }

  /** The loop of populateNodeFactory over the modules. */
  method PopulateModules(nf: AndersNodeFactory, ms: seq<Module>, isAllocFn: string -> Option<AllocSig>)
    returns (res: Result<()>)
    requires nf.Valid() && Prepared(nf.structAnalyzer)
    modifies nf`dataLayout, nf`nodes, nf`root, nf`rank, nf`valueNodeMap, nf`objNodeMap, nf`returnMap, nf`varargMap
    ensures nf.Valid() && old(nf.nodes) <= nf.nodes
    ensures res.Ok? ==>
      Populated(old(nf.valueNodeMap), old(nf.objNodeMap), old(nf.returnMap), old(nf.varargMap),
                nf.valueNodeMap, nf.objNodeMap, nf.returnMap, nf.varargMap, EmptyPointees(nf.structAnalyzer), ms, isAllocFn)
    ensures res.Ok? ==> nf.dataLayout == if ms == [] then old(nf.dataLayout) else ms[|ms| - 1].dl
  {
    ghost var empties := EmptyPointees(nf.structAnalyzer);
    PopulatedStart(nf.valueNodeMap, nf.objNodeMap, nf.returnMap, nf.varargMap, empties, ms, isAllocFn);
    var i := 0;
    while i < |ms|
      invariant 0 <= i <= |ms|
      invariant nf.Valid() && Prepared(nf.structAnalyzer) && EmptyPointees(nf.structAnalyzer) == empties
      invariant old(nf.nodes) <= nf.nodes
      invariant Populated(old(nf.valueNodeMap), old(nf.objNodeMap), old(nf.returnMap), old(nf.varargMap),
                          nf.valueNodeMap, nf.objNodeMap, nf.returnMap, nf.varargMap, empties, ms[..i], isAllocFn)
      invariant nf.dataLayout == if i == 0 then old(nf.dataLayout) else ms[i - 1].dl
    {
      res := PopulateNext(nf, ms, i, isAllocFn, old(nf.valueNodeMap), old(nf.objNodeMap), old(nf.returnMap),
                          old(nf.varargMap), empties);
      if res.Err? {
        return;
      }
      i := i + 1;
    }
    assert ms[..i] == ms;
    res := Ok(());
  }
}
