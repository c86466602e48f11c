// The slice of the LLVM IR that the memory model consumes: types, a data
// layout given as functions, constants and values. Everything the analysis
// asks of LLVM goes through the definitions of this module.
module Llvm {

  datatype Option<T> = None | Some(value: T)

  /** Why a run of the analysis stops: an `assert` or `llvm_unreachable` of the
      source that fires, or an undefined operation it performs. */
  datatype Fault =
    | NestedOpaqueStruct       // addStructInfo: "Nested opaque struct"
    | MissingStructInfo        // "structInfoMap should have info for all structs!"
    | MissingBaseNode          // getValueNodeForConstant / getObjectNodeForConstant on a GEP
    | DuplicateValueNode       // createValueNode / createReturnNode / createVarargNode: a second mapping
    | BrokenObjectRun          // getOffsetObjectNode / createObjectNode(base, off): base+off is not the field node
    | UnhandledConstant        // llvm_unreachable on a constant kind it does not know
    | ZeroSizedLeaf            // offsetToFieldNum: `offset %= 0` on a zero-sized leaf type
    | NoElementAtOffset        // getElementContainingOffset on a struct with no members
    | NonPointerAllocation     // an alloca or allocator call whose type is not a pointer
    | OversizedAllocation      // createNodeForHeapObject: size argument not below UINT_MAX
    | MissingValueNode         // createNodeForPointerVal / populateNodeFactory: a pointer without a value node

  datatype Result<T> = Ok(value: T) | Err(fault: Fault)

  /** The 32-bit width of `unsigned`, the type of node ids and field numbers. */
  const UINT_MAX: nat := 0xFFFF_FFFF

  // ---------------------------------------------------------------- types

  datatype Type =
    | Void
    | FuncTy
    | Int(bits: nat)
    | Ptr(pointee: Type)
    | Array(elem: Type, count: nat)
    | Struct(name: string, elems: seq<Type>, isLiteral: bool, isOpaque: bool)

  predicate StartsWith(s: string, prefix: string) {
    |prefix| <= |s| && s[..|prefix|] == prefix
  }

  /** A named struct whose name starts with "union": how the source recognises a C union. */
  predicate IsNamedUnion(t: Type) {
    t.Struct? && !t.isLiteral && StartsWith(t.name, "union")
  }

  /** The innermost element type of a (possibly multi-dimensional) array; any other type is itself. */
  function StripArrays(t: Type): (r: Type)
    ensures !r.Array?
    ensures Height(r) == Height(t)
  {
    if t.Array? then StripArrays(t.elem) else t
  }

  /** Nesting depth of by-value struct members (pointers do not nest). */
  function Height(t: Type): nat {
    match t
    case Array(e, _) => Height(e)
    case Struct(_, elems, _, _) => 1 + ElemsHeight(elems)
    case _ => 0
  }

  function ElemsHeight(elems: seq<Type>): nat {
    if elems == [] then 0
    else
      var a := Height(elems[0]);
      var b := ElemsHeight(elems[1..]);
      if a > b then a else b
  }

  lemma {:induction false} ElemsHeightBound(elems: seq<Type>, i: nat)
    requires i < |elems|
    ensures Height(elems[i]) <= ElemsHeight(elems)
    ensures Height(StripArrays(elems[i])) < Height(Struct("", elems, true, false))
  {
    if i > 0 {
      ElemsHeightBound(elems[1..], i - 1);
    }
  }

  lemma {:induction false} ElemsHeightPrefix(elems: seq<Type>, n: nat)
    requires n <= |elems|
    ensures ElemsHeight(elems[..n]) <= ElemsHeight(elems)
  {
    if n > 0 {
      assert elems[..n][1..] == elems[1..][..n - 1];
      ElemsHeightPrefix(elems[1..], n - 1);
    }
  }

  /** The scope name of t; a named function so that ScopeConsistent is only
      used where a proof mentions it. */
  ghost function ScopeOf(scopeName: Type -> string, t: Type): string {
    scopeName(t)
  }

  /** Named structs that share a scope name declare the same members: the scope
      name exists to unify one declaration seen in several translation units. */
  ghost predicate ScopeConsistent(scopeName: Type -> string) {
    forall a: Type, b: Type {:trigger ScopeOf(scopeName, a), ScopeOf(scopeName, b)} ::
      (a.Struct? && b.Struct? && !a.isLiteral && !b.isLiteral && !a.isOpaque && !b.isOpaque &&
       ScopeOf(scopeName, a) == ScopeOf(scopeName, b)) ==> a.elems == b.elems
  }

  // ---------------------------------------------------------- data layout

  /** The target data layout, as the functions of it the model uses.
      scalarSize: alloc size of an integer or pointer type;
      structSize: alloc size of a sized struct with these members;
      elementOffset: byte offset of member i of a struct with these members. */
  datatype DataLayout = DataLayout(
    scalarSize: Type -> nat,
    structSize: seq<Type> -> nat,
    elementOffset: (seq<Type>, nat) -> nat)

  /** Whether the type has a size in memory (Type::isSized): void and function types do not. */
  predicate IsSized(t: Type) {
    match t
    case Void => false
    case FuncTy => false
    case Int(_) => true
    case Ptr(_) => true
    case Array(e, _) => IsSized(e)
    case Struct(_, elems, _, isOpaque) => !isOpaque && forall i :: 0 <= i < |elems| ==> IsSized(elems[i])
  }

  /** DataLayout::getTypeAllocSize (0 for a type without a size). */
  function AllocSize(dl: DataLayout, t: Type): nat {
    match t
    case Void => 0
    case FuncTy => 0
    case Int(_) => dl.scalarSize(t)
    case Ptr(_) => dl.scalarSize(t)
    case Array(e, n) => n * AllocSize(dl, e)
    case Struct(_, elems, _, isOpaque) => if isOpaque then 0 else dl.structSize(elems)
  }

  /** StructLayout::getElementContainingOffset: the last member that starts at or
      before `off` (member 0 when none does). */
  function ElementContaining(dl: DataLayout, elems: seq<Type>, off: int): (idx: nat)
    ensures |elems| > 0 ==> idx < |elems|
    ensures idx > 0 ==> idx < |elems| && dl.elementOffset(elems, idx) <= off
    ensures forall j :: idx < j < |elems| ==> dl.elementOffset(elems, j) > off
  {
    LastStartingAtOrBefore(dl, elems, off, |elems|)
  }

  function LastStartingAtOrBefore(dl: DataLayout, elems: seq<Type>, off: int, n: nat): (idx: nat)
    requires n <= |elems|
    ensures n > 0 ==> idx < n
    ensures idx > 0 ==> idx < n && dl.elementOffset(elems, idx) <= off
    ensures forall j :: idx < j < n ==> dl.elementOffset(elems, j) > off
  {
    if n <= 1 then 0
    else if dl.elementOffset(elems, n - 1) <= off then n - 1
    else LastStartingAtOrBefore(dl, elems, off, n - 1)
  }

  /** DataLayout::getIndexedOffsetInType: the first index steps over whole
      objects of `ty`, each later one selects a member or an array element. */
  function IndexedOffset(dl: DataLayout, ty: Type, idxs: seq<int>): int {
    if idxs == [] then 0 else idxs[0] * AllocSize(dl, ty) + InnerOffset(dl, ty, idxs[1..])
  }

  function InnerOffset(dl: DataLayout, ty: Type, idxs: seq<int>): int
    decreases |idxs|
  {
    if idxs == [] then 0
    else match ty
      case Struct(_, elems, _, _) =>
        if 0 <= idxs[0] < |elems|
        then dl.elementOffset(elems, idxs[0]) + InnerOffset(dl, elems[idxs[0]], idxs[1..])
        else 0
      case Array(e, _) => idxs[0] * AllocSize(dl, e) + InnerOffset(dl, e, idxs[1..])
      case _ => 0
  }

  // ---------------------------------------------------- constants and values

  /** A global variable or function. `id` is the identity of the object that
      defines it: two modules may each define a global of the same name (a
      `static` one), and those are distinct globals. */
  datatype Global =
    | GlobalVar(id: nat, name: string, isDecl: bool, valueType: Type)
    | Function(id: nat, name: string, isDecl: bool)

  /** An index operand of a GEP: a ConstantInt, or anything else. */
  datatype GEPIndex = ConstIdx(v: int) | NonConstIdx

  datatype Constant =
    | ConstInt(v: nat)
    | Null
    | Undef(ty: Type)
    | GlobalRef(g: Global)
    | GEPExpr(srcElemType: Type, base: Constant, indices: seq<GEPIndex>)
    | BitCast(src: Constant, ty: Type)
    | IntToPtr(src: Constant, ty: Type)
    | PtrToInt(src: Constant, ty: Type)
    | BlockAddr
    | OtherConst(ty: Type)

  /** True when the constant's own type is a pointer type. */
  predicate IsPointerConstant(c: Constant) {
    match c
    case ConstInt(_) => false
    case Null => true
    case Undef(ty) => ty.Ptr?
    case GlobalRef(_) => true
    case GEPExpr(_, _, _) => true
    case BitCast(_, ty) => ty.Ptr?
    case IntToPtr(_, ty) => ty.Ptr?
    case PtrToInt(_, ty) => ty.Ptr?
    case BlockAddr => true
    case OtherConst(ty) => ty.Ptr?
  }

  /** Allocation-function signature, as the external allocator table gives it. */
  datatype AllocSig = AllocSig(sizeArg: int, flagArg: int)

  datatype Opcode =
    | Alloca
    | Call(callee: Option<string>, args: seq<Value>, castUsers: seq<Type>)
    | OtherOp

  datatype Value =
    | Inst(id: nat, ty: Type, op: Opcode)
    | Arg(id: nat, ty: Type)
    | Const(c: Constant)
  {
    predicate IsGlobal() { Const? && c.GlobalRef? }
  }
}
