// The offset resolver: getGEPOffset folds a chain of constant GEPs into one
// byte offset, and offsetToFieldNum turns a byte offset into a pointee into
// the index of a flattened field by descending the struct layout.
module OffsetResolver {
  import opened Llvm
  import opened Flatten
  import opened StructAnalysis

  // ------------------------------------------------------------ getGEPOffset

  /** Nesting depth of casts and GEPs in a constant: the measure of the walk
      down a GEP chain. */
  function Depth(v: Value): nat {
    match v
    case Const(c) => ConstDepth(c)
    case _ => 0
  }

  function ConstDepth(c: Constant): nat {
    match c
    case GEPExpr(_, b, _) => 1 + ConstDepth(b)
    case BitCast(src, _) => 1 + ConstDepth(src)
    case _ => 0
  }

  /** Value::stripPointerCasts on the values of this model: it looks through
      pointer-to-pointer bitcasts. (It also looks through GEPs whose indices
      are all zero; such a GEP adds 0 to the offset, so the chain's total is
      the same either way.) */
  function StripPointerCasts(v: Value): (r: Value)
    decreases Depth(v)
    ensures Depth(r) <= Depth(v)
    ensures !(r.Const? && r.c.BitCast? && r.c.ty.Ptr? && IsPointerConstant(r.c.src))
  {
    if v.Const? && v.c.BitCast? && v.c.ty.Ptr? && IsPointerConstant(v.c.src) then StripPointerCasts(Const(v.c.src))
    else v
  }

  /** The index operands with every non-constant index replaced by 0. */
  function Zeroed(indices: seq<GEPIndex>): (r: seq<int>)
    ensures |r| == |indices|
  {
    seq(|indices|, j requires 0 <= j < |indices| => if indices[j].ConstIdx? then indices[j].v else 0)
  }

  /** The byte offset getGEPOffset computes for a GEP over `srcElemType` with
      pointer operand `base`: the offset of a constant GEP it is based on (after
      stripping casts), plus its own indexed offset with non-constant indices
      read as 0. */
  function GEPOffset(dl: DataLayout, srcElemType: Type, base: Value, indices: seq<GEPIndex>): int
    decreases Depth(base), 1
  {
    BaseOffset(dl, base) + IndexedOffset(dl, srcElemType, Zeroed(indices))
  }

  /** The offset the pointer operand contributes: that of the constant GEP it
      strips to, and 0 for anything else. */
  function BaseOffset(dl: DataLayout, base: Value): int
    decreases Depth(base), 0
  {
    var b := StripPointerCasts(base);
    if b.Const? && b.c.GEPExpr? then GEPOffset(dl, b.c.srcElemType, Const(b.c.base), b.c.indices) else 0
  }

  /** getGEPOffset: recurses into a constant GEP base, then rewrites the index
      operands so that they are all constants and adds the indexed offset. */
  method GetGEPOffset(dl: DataLayout, srcElemType: Type, base: Value, indices: seq<GEPIndex>) returns (offset: int)
    decreases Depth(base)
    ensures offset == GEPOffset(dl, srcElemType, base, indices)
  {
    offset := 0;
    var baseValue := StripPointerCasts(base);
    if baseValue.Const? && baseValue.c.GEPExpr? {
      var sub := GetGEPOffset(dl, baseValue.c.srcElemType, Const(baseValue.c.base), baseValue.c.indices);
      offset := offset + sub;
    }
    var indexOps := indices;
    var i := 0;
    while i < |indexOps|
      invariant 0 <= i <= |indexOps| == |indices|
      invariant forall j :: 0 <= j < i ==> indexOps[j] == ConstIdx(Zeroed(indices)[j])
      invariant indexOps[i..] == indices[i..]
    {
      if !indexOps[i].ConstIdx? {
        indexOps := indexOps[i := ConstIdx(0)];
      }
      i := i + 1;
    }
    var consts := seq(|indexOps|, j requires 0 <= j < |indexOps| => indexOps[j].v);
    assert consts == Zeroed(indices);
    offset := offset + IndexedOffset(dl, srcElemType, consts);
  }

  /** A GEP whose indices are all constants gets exactly the data layout's
      indexed offset. */
  lemma AllConstantIndices(dl: DataLayout, srcElemType: Type, base: Value, vals: seq<int>)
    ensures GEPOffset(dl, srcElemType, base, seq(|vals|, j requires 0 <= j < |vals| => ConstIdx(vals[j]))) ==
      BaseOffset(dl, base) + IndexedOffset(dl, srcElemType, vals)
  {
    var indices := seq(|vals|, j requires 0 <= j < |vals| => ConstIdx(vals[j]));
    assert Zeroed(indices) == vals;
  }

  /** A non-constant index counts as the constant 0. */
  lemma NonConstantIsZero(dl: DataLayout, srcElemType: Type, base: Value, indices: seq<GEPIndex>, i: nat)
    requires i < |indices| && indices[i].NonConstIdx?
    ensures GEPOffset(dl, srcElemType, base, indices) == GEPOffset(dl, srcElemType, base, indices[i := ConstIdx(0)])
  {
    assert Zeroed(indices) == Zeroed(indices[i := ConstIdx(0)]);
  }

  /** The offset of a GEP based on a pointer-cast constant GEP adds up both. */
  lemma NestedChain(dl: DataLayout, t: Type, inner: Constant, indices: seq<GEPIndex>, castTo: Type)
    requires inner.GEPExpr? && castTo.Ptr?
    ensures GEPOffset(dl, t, Const(BitCast(inner, castTo)), indices) ==
      GEPOffset(dl, inner.srcElemType, Const(inner.base), inner.indices) + IndexedOffset(dl, t, Zeroed(indices))
  {
    assert StripPointerCasts(Const(BitCast(inner, castTo))) == Const(inner);
  }

  // --------------------------------------------------------- offsetToFieldNum

  /** What offsetToFieldNum reads of the struct analysis, as values: the
      analyzed types, the scope-name representatives and the data layout
      the records were built with. */
  datatype Analysis = Analysis(
    keys: set<Type>,
    structMap: map<string, Type>,
    scopeName: Type -> string,
    dl: DataLayout)

  function ViewOf(sa: StructAnalyzer): (a: Analysis)
    reads sa
    ensures a.keys == sa.structInfoMap.Keys && a.dl == sa.dl
  {
    Analysis(sa.structInfoMap.Keys, sa.structMap, sa.scopeName, sa.dl)
  }

  /** The key whose record getStructInfo returns for t. */
  function KeyOf(a: Analysis, t: Type): Option<Type> {
    InfoKeyIn(a.keys, a.structMap, a.scopeName, t)
  }

  /** A struct member, arrays stripped, has a record only if that record
      describes a struct with the same members. */
  ghost predicate MemberOk(a: Analysis, e: Type) {
    var s := StripArrays(e);
    s.Struct? && KeyOf(a, s).Some? ==> KeyOf(a, s).value.Struct? && KeyOf(a, s).value.elems == s.elems
  }

  /** The analysis is well formed: every analyzed type is a struct, and its
      nested structs resolve to records of the same shape. */
  ghost predicate Wf(a: Analysis) {
    (forall k :: k in a.keys ==> k.Struct?) &&
    (forall k, i {:trigger MemberOk(a, k.elems[i])} :: k in a.keys && 0 <= i < |k.elems| ==> MemberOk(a, k.elems[i]))
  }

  /** A finished analysis is well formed. */
  lemma ViewWf(sa: StructAnalyzer)
    requires sa.Valid(None)
    ensures Wf(ViewOf(sa))
  {
    var a := ViewOf(sa);
    forall k | k in a.keys
      ensures k.Struct?
    {
      assert sa.RecordOf(k) == sa.structInfoMap[k];
    }
    forall k, i | k in a.keys && 0 <= i < |k.elems|
      ensures MemberOk(a, k.elems[i])
    {
      assert RecordIn(sa.structInfoMap, k) == sa.structInfoMap[k];
      var s := StripArrays(k.elems[i]);
      if s.Struct? {
        NoNestedOpaqueAt(k.elems, |k.elems|, i);
        sa.ResolveSameElems(s);
      }
    }
  }

  /** Record r is registered under k and maps each member of k to the
      number of flattened fields before it. */
  ghost predicate RecordMatches(r: StructInfo, k: Type)
    reads r
  {
    r.stType == Some(k) && k.Struct? && |r.offsetMap| == |k.elems| &&
    forall j :: 0 <= j < |k.elems| ==> r.offsetMap[j] == ExpandedCount(k.elems, j)
  }

  /** Every record of the analysis matches its key. */
  ghost predicate RecordsMatch(sa: StructAnalyzer)
    reads sa, sa.structInfoMap.Values
  {
    forall k :: k in sa.structInfoMap ==> RecordMatches(sa.structInfoMap[k], k)
  }

  /** A finished analysis has matching records. */
  lemma ViewMatches(sa: StructAnalyzer)
    requires sa.Valid(None)
    ensures RecordsMatch(sa)
  {
    forall k | k in sa.structInfoMap
      ensures RecordMatches(sa.structInfoMap[k], k)
    {
      assert RecordIn(sa.structInfoMap, k) == sa.structInfoMap[k];
      assert sa.structInfoMap[k].ContentIs(sa.dl, k);
      forall j | 0 <= j < |k.elems|
        ensures sa.structInfoMap[k].offsetMap[j] == ExpandedCount(k.elems, j)
      {
        OffsetMapCounts(sa.dl, k.elems, j);
      }
    }
  }

  /** How far the descent from t can still go: the height of the record t's
      struct resolves to. */
  function Rank(a: Analysis, t: Type): nat {
    var s := StripArrays(t);
    if s.Struct? && KeyOf(a, s).Some? then Height(KeyOf(a, s).value) else 0
  }

  lemma RankStep(a: Analysis, k: Type, i: nat)
    requires Wf(a) && k in a.keys && i < |k.elems|
    ensures Rank(a, k.elems[i]) < Height(k)
  {
    assert MemberOk(a, k.elems[i]);
    ElemsHeightBound(k.elems, i);
  }

  /** The loop of offsetToFieldNum from element type t with `offset` bytes
      left and field number `ret` so far: a struct resolves to its record and
      takes a struct step; at a leaf the walk ends, whether the offset lands
      on the leaf's start or inside it. */
  function Descend(a: Analysis, dl: DataLayout, t: Type, offset: int, ret: nat): Result<nat>
    requires Wf(a)
    decreases Rank(a, t), 1
  {
    if offset <= 0 then Ok(ret)
    else
      var s := StripArrays(t);
      if !s.Struct? then
        if AllocSize(dl, s) == 0 then Err(ZeroSizedLeaf) else Ok(ret)
      else
        match KeyOf(a, s)
        case None => Err(MissingStructInfo)
        case Some(k) => StructStep(a, dl, k, offset, ret)
  }

  /** One step into the struct whose record is k: the offset is reduced
      modulo k's size, the number of flattened fields before the member
      containing it is added and the member's start is subtracted. A named
      union ends the walk; a struct of size 0 makes the result 0. */
  function StructStep(a: Analysis, dl: DataLayout, k: Type, offset: int, ret: nat): Result<nat>
    requires Wf(a) && k in a.keys
    decreases Height(k), 0
  {
    var allocSize := AllocSize(a.dl, k);
    if allocSize == 0 then Ok(0)
    else if k.elems == [] then Err(NoElementAtOffset)
    else
      var off := offset % allocSize;
      var idx := ElementContaining(a.dl, k.elems, off);
      if IsNamedUnion(k) then Ok(ret)
      else
        RankStep(a, k, idx);
        Descend(a, dl, k.elems[idx], off - a.dl.elementOffset(k.elems, idx), ret + ExpandedCount(k.elems, idx))
  }

  /** offsetToFieldNum's result for a pointer to `pointee`: 0 for a negative
      offset and for a pointee that is a named union or an opaque struct, the
      descent otherwise. */
  function FieldNum(a: Analysis, dl: DataLayout, pointee: Type, offset: int): Result<nat>
    requires Wf(a)
  {
    if offset < 0 then Ok(0)
    else if pointee.Struct? && (IsNamedUnion(pointee) || pointee.isOpaque) then Ok(0)
    else Descend(a, dl, pointee, offset, 0)
  }

  /** offsetToFieldNum. The pointer's element type is `pointee`; the struct
      steps use the layout of the analysis, the leaf step the layout passed
      in. */
  method OffsetToFieldNum(pointee: Type, offset: int, dl: DataLayout, sa: StructAnalyzer) returns (res: Result<nat>)
    requires Wf(ViewOf(sa)) && RecordsMatch(sa)
    ensures res == FieldNum(ViewOf(sa), dl, pointee, offset)
    ensures offset < 0 ==> res == Ok(0)
    ensures pointee.Struct? && (IsNamedUnion(pointee) || pointee.isOpaque) ==> res == Ok(0)
  {
    if offset < 0 {
      return Ok(0);
    }
    if pointee.Struct? {
      if IsNamedUnion(pointee) {
        return Ok(0);
      }
      if pointee.isOpaque {
        return Ok(0);
      }
    }
    res := DescendLoop(pointee, offset, dl, sa);
  }

  /** The `while (offset > 0)` loop of offsetToFieldNum. */
  method DescendLoop(pointee: Type, offset: int, dl: DataLayout, sa: StructAnalyzer) returns (res: Result<nat>)
    requires Wf(ViewOf(sa)) && RecordsMatch(sa)
    ensures res == Descend(ViewOf(sa), dl, pointee, offset, 0)
  {
    ghost var a := ViewOf(sa);
    var trueElemType := pointee;
    var ret: nat := 0;
    var off := offset;
    while off > 0
      invariant Descend(a, dl, trueElemType, off, ret) == Descend(a, dl, pointee, offset, 0)
      decreases Rank(a, trueElemType), if off > 0 then off else 0
    {
      ghost var t0 := trueElemType;
      while trueElemType.Array?
        invariant StripArrays(trueElemType) == StripArrays(t0)
        decreases trueElemType
      {
        trueElemType := trueElemType.elem;
      }
      assert trueElemType == StripArrays(t0);
      if trueElemType.Struct? {
        var done: Option<Result<nat>>;
        done, trueElemType, off, ret := EnterStruct(trueElemType, off, ret, dl, sa);
        if done.Some? {
          return done.value;
        }
      } else {
        var leafSize := AllocSize(dl, trueElemType);
        if leafSize == 0 {
          return Err(ZeroSizedLeaf);
        }
        assert Descend(a, dl, trueElemType, off, ret) == Ok(ret);
        off := off % leafSize;
        if off != 0 {
          break;
        }
      }
    }
    return Ok(ret);
  }

  /** The struct branch of the loop body: either the walk ends here with
      `done`, or it goes on into member `t'` with `off'` bytes left and field
      number `ret'`. */
  method EnterStruct(t: Type, off: int, ret: nat, dl: DataLayout, sa: StructAnalyzer)
      returns (done: Option<Result<nat>>, t': Type, off': int, ret': nat)
    requires Wf(ViewOf(sa)) && RecordsMatch(sa)
    requires t.Struct? && off > 0
    ensures done.Some? ==> done.value == Descend(ViewOf(sa), dl, t, off, ret)
    ensures done.None? ==>
      Rank(ViewOf(sa), t') < Rank(ViewOf(sa), t) &&
      Descend(ViewOf(sa), dl, t', off', ret') == Descend(ViewOf(sa), dl, t, off, ret)
  {
    ghost var a := ViewOf(sa);
    t', off', ret' := t, off, ret;
    var stInfo := sa.GetStructInfo(t);
    if stInfo.None? {
      return Some(Err(MissingStructInfo)), t', off', ret';
    }
    ghost var key := KeyOf(a, t).value;
    assert RecordMatches(sa.structInfoMap[key], key);
    var stType := stInfo.value.stType.value;
    assert stType == key && key in a.keys;
    assert Descend(a, dl, t, off, ret) == StructStep(a, dl, key, off, ret);
    var allocSize := AllocSize(sa.dl, stType);
    if allocSize == 0 {
      return Some(Ok(0)), t', off', ret';
    }
    off' := off % allocSize;
    if stType.elems == [] {
      return Some(Err(NoElementAtOffset)), t', off', ret';
    }
    var idx := ElementContaining(sa.dl, stType.elems, off');
    if IsNamedUnion(stType) {
      off' := off' - allocSize;
      if off' <= 0 {
        return Some(Ok(ret)), t', off', ret';
      }
    }
    ret' := ret + stInfo.value.offsetMap[idx];
    if IsNamedUnion(stType) {
      off' := off' - allocSize;
    } else {
      off' := off' - sa.dl.elementOffset(stType.elems, idx);
    }
    RankStep(a, stType, idx);
    t' := stType.elems[idx];
    done := None;
  }

  // ------------------------------------------------------------ properties

  /** The number of flattened fields below t: its struct's (that of its
      record when it has one), or 1 for a leaf. */
  function Span(a: Analysis, t: Type): nat {
    var s := StripArrays(t);
    if !s.Struct? then 1
    else if KeyOf(a, s).Some? && KeyOf(a, s).value.Struct? then ExpandedSize(KeyOf(a, s).value.elems)
    else ExpandedSize(s.elems)
  }

  lemma {:induction false} ExpandedCountMono(elems: seq<Type>, m: nat, n: nat)
    requires m <= n <= |elems|
    decreases n
    ensures ExpandedCount(elems, m) <= ExpandedCount(elems, n)
  {
    if m < n {
      ExpandedCountMono(elems, m, n - 1);
    }
  }

  /** A result of the descent lies in lo..hi, or is 0, or is an error. */
  predicate InRange(r: Result<nat>, lo: nat, hi: nat) {
    r.Ok? ==> r.value == 0 || lo <= r.value <= hi
  }

  lemma InRangeWider(r: Result<nat>, lo: nat, hi: nat, lo': nat, hi': nat)
    requires InRange(r, lo, hi) && lo' <= lo && hi <= hi'
    ensures InRange(r, lo', hi')
  {
  }

  /** The descent from t ends inside t's flattened fields: at a field number
      between ret and ret plus t's field count (the upper end only when the
      offset falls on a trailing empty struct), or at 0 when it meets a
      struct of size 0. */
  /** The descent from t ends inside t's flattened fields: at a field number
      between ret and ret plus t's field count (the upper end only when the
      offset falls on a trailing empty struct), or at 0 when it meets a
      struct of size 0. */
  lemma {:induction false} DescendInRange(a: Analysis, dl: DataLayout, t: Type, offset: int, ret: nat)
    requires Wf(a)
    decreases Rank(a, t), 1
    ensures InRange(Descend(a, dl, t, offset, ret), ret, ret + Span(a, t))
  {
    var s := StripArrays(t);
    if offset > 0 && s.Struct? && KeyOf(a, s).Some? {
      StructStepInRange(a, dl, KeyOf(a, s).value, offset, ret);
    }
  }

  lemma {:induction false} StructStepInRange(a: Analysis, dl: DataLayout, k: Type, offset: int, ret: nat)
    requires Wf(a) && k in a.keys
    decreases Height(k), 0
    ensures InRange(StructStep(a, dl, k, offset, ret), ret, ret + ExpandedSize(k.elems))
  {
    var allocSize := AllocSize(a.dl, k);
    if allocSize != 0 && k.elems != [] && !IsNamedUnion(k) {
      var off := offset % allocSize;
      var idx := ElementContaining(a.dl, k.elems, off);
      var e := k.elems[idx];
      var lo := ret + ExpandedCount(k.elems, idx);
      RankStep(a, k, idx);
      assert StructStep(a, dl, k, offset, ret) == Descend(a, dl, e, off - a.dl.elementOffset(k.elems, idx), lo);
      DescendInRange(a, dl, e, off - a.dl.elementOffset(k.elems, idx), lo);
      SpanCount(a, k, idx);
      ExpandedCountMono(k.elems, idx + 1, |k.elems|);
      InRangeWider(Descend(a, dl, e, off - a.dl.elementOffset(k.elems, idx), lo), lo, lo + Span(a, e),
        ret, ret + ExpandedSize(k.elems));
    }
  }

  /** Member i of an analyzed struct contributes its span to the count. */
  lemma SpanCount(a: Analysis, k: Type, i: nat)
    requires Wf(a) && k in a.keys && i < |k.elems|
    ensures ExpandedCount(k.elems, i + 1) == ExpandedCount(k.elems, i) + Span(a, k.elems[i])
  {
    assert MemberOk(a, k.elems[i]);
  }

  /** offsetToFieldNum returns a field number of the pointee: at most its
      number of flattened fields. */
  lemma FieldNumInRange(a: Analysis, dl: DataLayout, pointee: Type, offset: int)
    requires Wf(a)
    ensures FieldNum(a, dl, pointee, offset).Ok? ==> FieldNum(a, dl, pointee, offset).value <= Span(a, pointee)
  {
    DescendInRange(a, dl, pointee, offset, 0);
  }

  // ------------------------------------------------- the offset round trip

  /** The number of flattened fields of a value of type t: its struct's
      (arrays stripped), 1 for a leaf. */
  function FieldCount(t: Type): nat {
    var s := StripArrays(t);
    if s.Struct? then ExpandedSize(s.elems) else 1
  }

  /** The member among the first n whose flattened fields hold field f. */
  function MemberHolding(elems: seq<Type>, f: nat, n: nat): (j: nat)
    requires n <= |elems| && f < ExpandedCount(elems, n)
    ensures j < n && ExpandedCount(elems, j) <= f < ExpandedCount(elems, j + 1)
    ensures ExpandedCount(elems, j + 1) == ExpandedCount(elems, j) + FieldCount(elems[j])
  {
    if ExpandedCount(elems, n - 1) <= f then n - 1 else MemberHolding(elems, f, n - 1)
  }

  /** The byte offset of flattened field f in a value of type t, read off the
      layout alone: a leaf's one field is at its start, an array's fields are
      those of its first element, and a struct's field lies in the member
      holding it, at that member's offset plus the field's offset within the
      member. */
  function FieldByteOffset(dl: DataLayout, t: Type, f: nat): nat
    requires f < FieldCount(t)
    decreases t
  {
    match t
    case Array(e, _) => FieldByteOffset(dl, e, f)
    case Struct(_, elems, _, _) =>
      var j := MemberHolding(elems, f, |elems|);
      dl.elementOffset(elems, j) + FieldByteOffset(dl, elems[j], f - ExpandedCount(elems, j))
    case _ => 0
  }

  /** The members of a struct are laid out one after another: each has a
      size, the first starts at 0, none overlaps a later one and all fit in
      the struct. */
  ghost predicate MembersLaidOut(dl: DataLayout, elems: seq<Type>) {
    (|elems| > 0 ==> dl.elementOffset(elems, 0) == 0) &&
    (forall j {:trigger MemberInside(dl, elems, j)} :: 0 <= j < |elems| ==> MemberInside(dl, elems, j)) &&
    (forall i, j {:trigger MembersApart(dl, elems, i, j)} :: 0 <= i < j < |elems| ==> MembersApart(dl, elems, i, j))
  }

  /** Member j has a size and ends inside the struct. */
  ghost predicate MemberInside(dl: DataLayout, elems: seq<Type>, j: nat)
    requires j < |elems|
  {
    AllocSize(dl, elems[j]) > 0 && dl.elementOffset(elems, j) + AllocSize(dl, elems[j]) <= dl.structSize(elems)
  }

  /** Member i ends before member j starts. */
  ghost predicate MembersApart(dl: DataLayout, elems: seq<Type>, i: nat, j: nat)
    requires i < |elems|
  {
    dl.elementOffset(elems, i) + AllocSize(dl, elems[i]) <= dl.elementOffset(elems, j)
  }

  /** Struct t resolves to a record of the same members that is neither
      opaque nor a named union. */
  ghost predicate HasPlainRecord(a: Analysis, t: Type)
    requires t.Struct?
  {
    KeyOf(a, t).Some? && KeyOf(a, t).value.Struct? && KeyOf(a, t).value.elems == t.elems &&
    !KeyOf(a, t).value.isOpaque && !IsNamedUnion(KeyOf(a, t).value)
  }

  /** Every struct in t, at any depth, is sized, laid out member after member
      under the analysis's layout, and resolves to a record of the same
      members that is neither opaque nor a named union. */
  ghost predicate PlainLayout(a: Analysis, t: Type)
    decreases t
  {
    match t
    case Array(e, _) => PlainLayout(a, e)
    case Struct(_, elems, _, isOpaque) =>
      !isOpaque && MembersLaidOut(a.dl, elems) && HasPlainRecord(a, t) &&
      forall j {:trigger PlainLayout(a, elems[j])} :: 0 <= j < |elems| ==> PlainLayout(a, elems[j])
    case _ => true
  }

  /** A field lies inside its value. */
  lemma {:induction false} FieldByteOffsetBound(a: Analysis, t: Type, f: nat)
    requires PlainLayout(a, t) && f < FieldCount(t) && AllocSize(a.dl, t) > 0
    decreases t
    ensures FieldByteOffset(a.dl, t, f) < AllocSize(a.dl, t)
  {
    match t
    case Array(e, n) =>
      var size := AllocSize(a.dl, e);
      assert AllocSize(a.dl, t) == n * size;
      PositiveProduct(n, size);
      FieldByteOffsetBound(a, e, f);
    case Struct(_, _, _, _) =>
      var j, e, g := FieldInMember(a, t, f);
      FieldByteOffsetBound(a, e, g);
    case _ =>
  }

  /** Field f of struct t is field g of its member j, of type e. */
  lemma FieldInMember(a: Analysis, t: Type, f: nat) returns (j: nat, e: Type, g: nat)
    requires t.Struct? && PlainLayout(a, t) && f < FieldCount(t)
    ensures j < |t.elems| && e == t.elems[j]
    ensures ExpandedCount(t.elems, j) + g == f && g < FieldCount(e)
    ensures FieldByteOffset(a.dl, t, f) == a.dl.elementOffset(t.elems, j) + FieldByteOffset(a.dl, e, g)
    ensures PlainLayout(a, e) && MembersLaidOut(a.dl, t.elems) && !t.isOpaque && HasPlainRecord(a, t)
    ensures AllocSize(a.dl, e) > 0 && a.dl.elementOffset(t.elems, j) + AllocSize(a.dl, e) <= AllocSize(a.dl, t)
  {
    j := MemberHolding(t.elems, f, |t.elems|);
    e := t.elems[j];
    g := f - ExpandedCount(t.elems, j);
    assert FieldByteOffset(a.dl, t, f) == a.dl.elementOffset(t.elems, j) + FieldByteOffset(a.dl, e, g);
    assert PlainLayout(a, e);
    MemberFits(a.dl, t.elems, j);
  }

  /** A whole array is at least as large as its first element. */
  lemma PositiveProduct(n: nat, x: nat)
    requires n * x > 0
    ensures x > 0 && x <= n * x
  {
  }

  /** A member has a size and ends inside its struct. */
  lemma MemberFits(dl: DataLayout, elems: seq<Type>, j: nat)
    requires MembersLaidOut(dl, elems) && j < |elems|
    ensures AllocSize(dl, elems[j]) > 0 && dl.elementOffset(elems, j) + AllocSize(dl, elems[j]) <= dl.structSize(elems)
  {
    assert MemberInside(dl, elems, j);
  }

  /** An offset below the modulus is its own remainder. */
  lemma ModBelow(o: nat, n: nat)
    requires o < n
    ensures o % n == o
  {
  }

  /** Only the first field lies at byte 0. */
  lemma {:induction false} FieldAtZero(a: Analysis, t: Type, f: nat)
    requires PlainLayout(a, t) && f < FieldCount(t) && FieldByteOffset(a.dl, t, f) == 0
    decreases t
    ensures f == 0
  {
    match t
    case Array(e, _) =>
      FieldAtZero(a, e, f);
    case Struct(_, _, _, _) =>
      var j, e, g := FieldInMember(a, t, f);
      MembersInOrder(a.dl, t.elems, 0, j);
      FieldAtZero(a, e, g);
    case _ =>
  }

  /** A later member starts after an earlier one ends. */
  lemma MembersInOrder(dl: DataLayout, elems: seq<Type>, i: nat, j: nat)
    requires MembersLaidOut(dl, elems) && i < |elems| && j < |elems|
    ensures i < j ==> dl.elementOffset(elems, i) + AllocSize(dl, elems[i]) <= dl.elementOffset(elems, j)
    ensures AllocSize(dl, elems[i]) > 0
  {
    assert MemberInside(dl, elems, i);
    assert i < j ==> MembersApart(dl, elems, i, j);
  }

  /** The member containing a field's byte offset is the member holding the
      field. */
  lemma ContainingIsHolding(dl: DataLayout, elems: seq<Type>, j: nat, inner: nat)
    requires MembersLaidOut(dl, elems) && j < |elems| && inner < AllocSize(dl, elems[j])
    ensures ElementContaining(dl, elems, dl.elementOffset(elems, j) + inner) == j
  {
    var o := dl.elementOffset(elems, j) + inner;
    var idx := ElementContaining(dl, elems, o);
    MembersInOrder(dl, elems, j, idx);
  }

  /** From a struct laid out member after member, the descent from a byte
      inside member j moves into member j, at the byte's offset within it. */
  lemma MemberStep(a: Analysis, t: Type, j: nat, inner: nat, o: int, ret: nat)
    requires Wf(a) && t.Struct? && !t.isOpaque && MembersLaidOut(a.dl, t.elems) && HasPlainRecord(a, t)
    requires j < |t.elems| && inner < AllocSize(a.dl, t.elems[j])
    requires o == a.dl.elementOffset(t.elems, j) + inner > 0
    ensures Descend(a, a.dl, t, o, ret) == Descend(a, a.dl, t.elems[j], inner, ret + ExpandedCount(t.elems, j))
  {
    var dl, elems, k := a.dl, t.elems, KeyOf(a, t).value;
    MemberFits(dl, elems, j);
    assert AllocSize(dl, k) == dl.structSize(elems);
    ContainingIsHolding(dl, elems, j, inner);
    ModBelow(o, AllocSize(dl, k));
    DescendIntoRecord(a, dl, t, o, ret, k);
    StepIntoMember(a, dl, k, o, ret, j);
  }

  /** From a struct, the descent from byte o inside member j, field g of
      which is field f of the struct, finds f when the descent into the
      member finds g. */
  lemma StructRoundTrip(a: Analysis, t: Type, f: nat, ret: nat, j: nat, e: Type, g: nat, c: nat, o: int)
    requires Wf(a) && t.Struct? && !t.isOpaque && MembersLaidOut(a.dl, t.elems) && HasPlainRecord(a, t)
    requires j < |t.elems| && e == t.elems[j] && PlainLayout(a, e) && g < FieldCount(e)
    requires AllocSize(a.dl, e) > 0
    requires c == ExpandedCount(t.elems, j) && c + g == f
    requires o == a.dl.elementOffset(t.elems, j) + FieldByteOffset(a.dl, e, g) > 0
    requires Descend(a, a.dl, e, FieldByteOffset(a.dl, e, g), ret + c) == Ok(ret + c + g)
    ensures Descend(a, a.dl, t, o, ret) == Ok(ret + f)
  {
    FieldByteOffsetBound(a, e, g);
    MemberStep(a, t, j, FieldByteOffset(a.dl, e, g), o, ret);
  }

  /** Descending from the byte offset of field f of t finds field f. */
  lemma {:induction false} DescendRoundTrip(a: Analysis, t: Type, f: nat, ret: nat)
    requires Wf(a) && PlainLayout(a, t) && f < FieldCount(t)
    decreases t, 1
    ensures Descend(a, a.dl, t, FieldByteOffset(a.dl, t, f), ret) == Ok(ret + f)
  {
    var o := FieldByteOffset(a.dl, t, f);
    if t.Array? {
      assert o == FieldByteOffset(a.dl, t.elem, f);
      assert PlainLayout(a, t.elem);
      DescendRoundTrip(a, t.elem, f, ret);
      DescendThroughArray(a, a.dl, t, o, ret);
    } else if t.Struct? && o > 0 {
      StructCaseRoundTrip(a, t, f, ret, o);
    } else {
      FieldAtZero(a, t, f);
    }
  }

  /** The struct case of DescendRoundTrip: a field past offset 0 is reached
      through the member that holds it. */
  lemma {:induction false} StructCaseRoundTrip(a: Analysis, t: Type, f: nat, ret: nat, o: nat)
    requires Wf(a) && t.Struct? && PlainLayout(a, t) && f < FieldCount(t)
    requires o == FieldByteOffset(a.dl, t, f) && o > 0
    decreases t, 0
    ensures Descend(a, a.dl, t, o, ret) == Ok(ret + f)
  {
    var j, e, g := FieldInMember(a, t, f);
    var c := ExpandedCount(t.elems, j);
    DescendRoundTrip(a, e, g, ret + c);
    StructRoundTrip(a, t, f, ret, j, e, g, c, o);
  }

  /** The descent looks through arrays. */
  lemma DescendThroughArray(a: Analysis, dl: DataLayout, t: Type, offset: int, ret: nat)
    requires Wf(a) && t.Array?
    ensures Descend(a, dl, t, offset, ret) == Descend(a, dl, t.elem, offset, ret)
  {
    assert StripArrays(t) == StripArrays(t.elem);
  }

  /** offsetToFieldNum inverts the layout: the byte offset of any flattened
      field of a plainly laid-out pointee that is not a named union resolves
      back to that field. */
  lemma FieldNumRoundTrip(a: Analysis, t: Type, f: nat)
    requires Wf(a) && PlainLayout(a, t) && f < FieldCount(t)
    requires !(t.Struct? && IsNamedUnion(t))
    ensures FieldNum(a, a.dl, t, FieldByteOffset(a.dl, t, f)) == Ok(f)
  {
    DescendRoundTrip(a, t, f, 0);
  }

  // ------------------------------------------------------------ example

  /** A 64-bit layout for the example struct
      `struct S { int a; struct { char b[4]; int *c; } inner; }`:
      every member takes an 8-byte slot, so a is at 0 and inner at 8 (b at 0
      and c at 8 within it); inner, the struct that starts with an array,
      takes 16 bytes and S 24. */
  function ExampleLayout(): DataLayout {
    DataLayout(
      (t: Type) => if t.Ptr? then 8 else if t.Int? then t.bits / 8 else 0,
      (elems: seq<Type>) => if |elems| > 0 && elems[0].Array? then 16 else 24,
      (elems: seq<Type>, i: nat) => 8 * i)
  }

  function ExampleAnalysis(): Analysis {
    Analysis({ExampleOuter(), ExampleInner()}, map[], (t: Type) => "", ExampleLayout())
  }

  /** A struct resolved to its record k takes a struct step. */
  lemma DescendIntoRecord(a: Analysis, dl: DataLayout, t: Type, offset: int, ret: nat, k: Type)
    requires Wf(a) && offset > 0 && t.Struct? && KeyOf(a, t) == Some(k)
    ensures k in a.keys && Descend(a, dl, t, offset, ret) == StructStep(a, dl, k, offset, ret)
  {
  }

  /** The struct step into the member containing the offset. */
  lemma StepIntoMember(a: Analysis, dl: DataLayout, k: Type, offset: int, ret: nat, idx: nat)
    requires Wf(a) && k in a.keys && AllocSize(a.dl, k) != 0 && k.elems != [] && !IsNamedUnion(k)
    requires idx == ElementContaining(a.dl, k.elems, offset % AllocSize(a.dl, k))
    ensures idx < |k.elems|
    ensures StructStep(a, dl, k, offset, ret) ==
      Descend(a, dl, k.elems[idx], offset % AllocSize(a.dl, k) - a.dl.elementOffset(k.elems, idx),
        ret + ExpandedCount(k.elems, idx))
  {
  }

  /** The example analysis: S and its inner struct are analyzed under
      themselves; neither is a union. */
  lemma ExampleFacts()
    ensures Wf(ExampleAnalysis())
    ensures KeyOf(ExampleAnalysis(), ExampleOuter()) == Some(ExampleOuter())
    ensures KeyOf(ExampleAnalysis(), ExampleInner()) == Some(ExampleInner())
    ensures AllocSize(ExampleLayout(), ExampleOuter()) == 24 && AllocSize(ExampleLayout(), ExampleInner()) == 16
    ensures !IsNamedUnion(ExampleOuter()) && !IsNamedUnion(ExampleInner())
    ensures ExampleOuter().elems[1] == ExampleInner()
    ensures ExpandedCount(ExampleOuter().elems, 1) == 1 && ExpandedCount(ExampleInner().elems, 1) == 1
  {
    var a := ExampleAnalysis();
    forall k, i | k in a.keys && 0 <= i < |k.elems|
      ensures MemberOk(a, k.elems[i])
    {
      if k == ExampleOuter() && i == 1 {
        assert KeyOf(a, ExampleInner()) == Some(ExampleInner());
      }
    }
    assert ExampleOuter().name[0] != "union"[0];
  }

  /** `&s->inner.c` is the GEP `S, 0, 1, 1`, at byte offset 16. */
  lemma ExampleGEP()
    ensures GEPOffset(ExampleLayout(), ExampleOuter(), Arg(0, Ptr(ExampleOuter())),
      [ConstIdx(0), ConstIdx(1), ConstIdx(1)]) == 16
  {
    var dl := ExampleLayout();
    assert InnerOffset(dl, ExampleInner(), [1]) == 8;
    assert InnerOffset(dl, ExampleOuter(), [1, 1]) == 16;
    assert Zeroed([ConstIdx(0), ConstIdx(1), ConstIdx(1)]) == [0, 1, 1];
  }

  /** Byte 16 of S resolves to flattened field 2, the field of c. */
  lemma ExampleFieldOfC()
    ensures Wf(ExampleAnalysis())
    ensures FieldNum(ExampleAnalysis(), ExampleLayout(), ExampleOuter(), 16) == Ok(2)
  {
    ExampleFacts();
    var a := ExampleAnalysis();
    var dl := ExampleLayout();
    DescendIntoRecord(a, dl, ExampleOuter(), 16, 0, ExampleOuter());
    StepIntoMember(a, dl, ExampleOuter(), 16, 0, 1);
    DescendIntoRecord(a, dl, ExampleInner(), 8, 1, ExampleInner());
    StepIntoMember(a, dl, ExampleInner(), 8, 1, 1);
  }

  /** Byte 10 of S, inside the array b, resolves to field 1, that of b. */
  lemma ExampleFieldOfB()
    ensures Wf(ExampleAnalysis())
    ensures FieldNum(ExampleAnalysis(), ExampleLayout(), ExampleOuter(), 10) == Ok(1)
  {
    ExampleFacts();
    var a := ExampleAnalysis();
    var dl := ExampleLayout();
    DescendIntoRecord(a, dl, ExampleOuter(), 10, 0, ExampleOuter());
    StepIntoMember(a, dl, ExampleOuter(), 10, 0, 1);
    DescendIntoRecord(a, dl, ExampleInner(), 2, 1, ExampleInner());
    StepIntoMember(a, dl, ExampleInner(), 2, 1, 0);
    assert Descend(a, dl, Array(Int(8), 4), 2, 1) == Ok(1);
  }

  /** Byte 2 of S lies inside the int a: the walk stops at field 0. */
  lemma ExampleInsideA()
    ensures Wf(ExampleAnalysis())
    ensures FieldNum(ExampleAnalysis(), ExampleLayout(), ExampleOuter(), 2) == Ok(0)
  {
    ExampleFacts();
    var a := ExampleAnalysis();
    var dl := ExampleLayout();
    DescendIntoRecord(a, dl, ExampleOuter(), 2, 0, ExampleOuter());
    StepIntoMember(a, dl, ExampleOuter(), 2, 0, 0);
    assert Descend(a, dl, Int(32), 2, 0) == Ok(0);
  }
}
