// StructInfo: the flattened field table of one struct type, built member by
// member, and the pure description of the table a build produces.
//
// Flattening splices every by-value nested struct into its parent, so the
// fields of a struct become one linear list of leaves (scalars, pointers and
// arrays, an array counting as one leaf of its element type).
module Flatten {
  import opened Llvm

  // ------------------------------------------------------------ the table

  /** The parallel vectors of a StructInfo. */
  datatype Flat = Flat(
    fieldSize: seq<nat>,
    arrayFlags: seq<bool>,
    pointerFlags: seq<bool>,
    unionFlags: seq<bool>,
    offsetMap: seq<nat>,
    fieldOffset: seq<nat>,
    fieldRealSize: seq<nat>)

  const EmptyFlat := Flat([], [], [], [], [], [], [])

  /** The non-zero member offsets of a nested table, each moved by `base`:
      what appendFieldOffset pushes. */
  function ShiftNonZero(offsets: seq<nat>, base: nat): (r: seq<nat>)
    ensures |r| <= |offsets|
  {
    if offsets == [] then []
    else
      var last := offsets[|offsets| - 1];
      var r0 := ShiftNonZero(offsets[..|offsets| - 1], base);
      assert offsets == offsets[..|offsets| - 1] + [last];
      r0 + (if last == 0 then [] else [last + base])
  }

  /** The table after addStructInfo has processed the first n members of a
      struct whose members are `elems` (before finalize). */
  function Build(dl: DataLayout, elems: seq<Type>, n: nat): (b: Flat)
    requires n <= |elems|
    decreases ElemsHeight(elems), n
    ensures |b.offsetMap| == n && |b.fieldOffset| >= n && b.fieldRealSize == []
    ensures |b.fieldSize| == ExpandedCount(elems, n) && |b.arrayFlags| == ExpandedCount(elems, n)
    ensures |b.pointerFlags| == ExpandedCount(elems, n) && |b.unionFlags| == ExpandedCount(elems, n)
  {
    if n == 0 then EmptyFlat
    else
      var p := Build(dl, elems, n - 1);
      var e := elems[n - 1];
      var s := StripArrays(e);
      var off := dl.elementOffset(elems, n - 1);
      var p1 := p.(fieldOffset := p.fieldOffset + [off], offsetMap := p.offsetMap + [|p.arrayFlags|]);
      if s.Struct? then
        ElemsHeightBound(elems, n - 1);
        var sub := Final(dl, s.elems);
        p1.(fieldSize := p1.fieldSize + (if sub.fieldSize[0] == 0 then [] else sub.fieldSize),
            arrayFlags := p1.arrayFlags + sub.arrayFlags,
            pointerFlags := p1.pointerFlags + sub.pointerFlags,
            unionFlags := p1.unionFlags + sub.unionFlags,
            fieldRealSize := p1.fieldRealSize + sub.fieldRealSize,
            fieldOffset := p1.fieldOffset + ShiftNonZero(sub.fieldOffset, off))
      else
        p1.(fieldSize := p1.fieldSize + [1],
            arrayFlags := p1.arrayFlags + [e.Array?],
            pointerFlags := p1.pointerFlags + [s.Ptr?],
            unionFlags := p1.unionFlags + [false])
  }

  /** The table after member n's offset and its offsetMap entry are pushed,
      before its fields are. */
  function Pushed(dl: DataLayout, elems: seq<Type>, n: nat): (b: Flat)
    requires n < |elems|
    ensures |b.offsetMap| == n + 1
  {
    var p := Build(dl, elems, n);
    p.(fieldOffset := p.fieldOffset + [dl.elementOffset(elems, n)], offsetMap := p.offsetMap + [|p.arrayFlags|])
  }

  /** The table p with a nested finalized table spliced in: what
      appendFields and appendFieldOffset leave, for a member at offset off. */
  function Spliced(p: Flat, sub: Flat, off: nat): Flat
    requires |sub.fieldSize| > 0
  {
    p.(fieldSize := p.fieldSize + (if sub.fieldSize[0] == 0 then [] else sub.fieldSize),
       arrayFlags := p.arrayFlags + sub.arrayFlags,
       pointerFlags := p.pointerFlags + sub.pointerFlags,
       unionFlags := p.unionFlags + sub.unionFlags,
       fieldRealSize := p.fieldRealSize + sub.fieldRealSize,
       fieldOffset := p.fieldOffset + ShiftNonZero(sub.fieldOffset, off))
  }

  /** A nested struct member extends the pushed table by its finalized table. */
  lemma NestedStep(dl: DataLayout, elems: seq<Type>, n: nat)
    requires n < |elems| && StripArrays(elems[n]).Struct?
    ensures |Final(dl, StripArrays(elems[n]).elems).fieldSize| > 0
    ensures Build(dl, elems, n + 1) ==
      Spliced(Pushed(dl, elems, n), Final(dl, StripArrays(elems[n]).elems), dl.elementOffset(elems, n))
  {
  }

  /** A scalar, pointer or array member adds one field. */
  lemma LeafStep(dl: DataLayout, elems: seq<Type>, n: nat)
    requires n < |elems| && !StripArrays(elems[n]).Struct?
    ensures var p := Pushed(dl, elems, n);
      Build(dl, elems, n + 1) ==
      p.(fieldSize := p.fieldSize + [1],
         arrayFlags := p.arrayFlags + [elems[n].Array?],
         pointerFlags := p.pointerFlags + [StripArrays(elems[n]).Ptr?],
         unionFlags := p.unionFlags + [false])
  {
  }

  /** The finalized table of a struct whose members are `elems`. */
  function Final(dl: DataLayout, elems: seq<Type>): (f: Flat)
    decreases ElemsHeight(elems), |elems| + 1
    ensures |f.offsetMap| == |elems| && f.fieldRealSize == []
    ensures |f.fieldSize| == if ExpandedSize(elems) == 0 then 1 else ExpandedSize(elems)
    ensures f.fieldSize[0] == ExpandedSize(elems)
    ensures |f.arrayFlags| == ExpandedSize(elems) && |f.pointerFlags| == ExpandedSize(elems)
    ensures |f.unionFlags| == ExpandedSize(elems)
  {
    Finalized(Build(dl, elems, |elems|))
  }

  /** finalize: fieldSize[0] becomes the number of flattened fields. */
  function Finalized(b: Flat): (f: Flat)
    ensures |f.fieldSize| == if b.fieldSize == [] then 1 else |b.fieldSize|
  {
    b.(fieldSize := (if b.fieldSize == [] then [0] else b.fieldSize)[0 := |b.fieldSize|])
  }

  /** finalize changes fieldSize[0] and nothing else. */
  lemma FinalizedFields(b: Flat)
    ensures Finalized(b).fieldSize[0] == |b.fieldSize|
    ensures Finalized(b).fieldSize[1..] == if b.fieldSize == [] then [] else b.fieldSize[1..]
    ensures Finalized(b).(fieldSize := b.fieldSize) == b
  {
  }

  /** Number of flattened fields the first n members contribute: one per
      scalar, pointer or array member, the nested count per struct member. */
  function ExpandedCount(elems: seq<Type>, n: nat): nat
    requires n <= |elems|
    decreases ElemsHeight(elems), n
  {
    if n == 0 then 0
    else
      var s := StripArrays(elems[n - 1]);
      if s.Struct? then
        ElemsHeightBound(elems, n - 1);
        ExpandedCount(elems, n - 1) + ExpandedCount(s.elems, |s.elems|)
      else ExpandedCount(elems, n - 1) + 1
  }

  function ExpandedSize(elems: seq<Type>): nat {
    ExpandedCount(elems, |elems|)
  }

  /** No by-value member, at any depth, is an opaque struct: exactly the
      structs addStructInfo flattens without tripping "Nested opaque struct".
      Contracts compare it with `true` so that the verifier keeps it as one
      fact instead of unfolding it into its cases. */
  ghost predicate NoNestedOpaque(elems: seq<Type>, n: nat)
    requires n <= |elems|
    decreases ElemsHeight(elems), n
  {
    n == 0 ||
    (NoNestedOpaque(elems, n - 1) &&
     var s := StripArrays(elems[n - 1]);
     (s.Struct? ==> !s.isOpaque && (ElemsHeightBound(elems, n - 1); NoNestedOpaque(s.elems, |s.elems|))))
  }

  // ------------------------------------------------- facts about the table

  /** A struct that passes the nested-opaque check has no opaque member struct. */
  lemma {:induction false} NoNestedOpaqueAt(elems: seq<Type>, n: nat, i: nat)
    requires i < n <= |elems|
    requires NoNestedOpaque(elems, n)
    decreases n
    ensures StripArrays(elems[i]).Struct? ==>
      !StripArrays(elems[i]).isOpaque && NoNestedOpaque(StripArrays(elems[i]).elems, |StripArrays(elems[i]).elems|)
  {
    if i < n - 1 {
      NoNestedOpaqueAt(elems, n - 1, i);
    }
  }

  lemma {:induction false} NoNestedOpaquePrefix(elems: seq<Type>, m: nat, n: nat)
    requires m <= n <= |elems|
    requires NoNestedOpaque(elems, n)
    decreases n
    ensures NoNestedOpaque(elems, m)
  {
    if m < n {
      NoNestedOpaquePrefix(elems, m, n - 1);
    }
  }

  /** isEmpty holds of a finalized table exactly when it has no flattened field. */
  lemma FinalEmptyIff(dl: DataLayout, elems: seq<Type>)
    ensures Final(dl, elems).fieldSize[0] == 0 <==> |Final(dl, elems).arrayFlags| == 0
  {
  }

  /** Processing more members only appends to each vector. */
  lemma {:induction false} BuildPrefix(dl: DataLayout, elems: seq<Type>, m: nat, n: nat)
    requires m <= n <= |elems|
    decreases n
    ensures var a := Build(dl, elems, m); var b := Build(dl, elems, n);
      a.arrayFlags <= b.arrayFlags && a.pointerFlags <= b.pointerFlags &&
      a.unionFlags <= b.unionFlags && a.offsetMap <= b.offsetMap
  {
    if m < n {
      BuildPrefix(dl, elems, m, n - 1);
      BuildGrows(dl, elems, n);
      FlatPrefixTrans(Build(dl, elems, m), Build(dl, elems, n - 1), Build(dl, elems, n));
    }
  }

  /** Appending to each vector is transitive. */
  lemma FlatPrefixTrans(a: Flat, b: Flat, c: Flat)
    requires a.arrayFlags <= b.arrayFlags && a.pointerFlags <= b.pointerFlags
    requires a.unionFlags <= b.unionFlags && a.offsetMap <= b.offsetMap
    requires b.arrayFlags <= c.arrayFlags && b.pointerFlags <= c.pointerFlags
    requires b.unionFlags <= c.unionFlags && b.offsetMap <= c.offsetMap
    ensures a.arrayFlags <= c.arrayFlags && a.pointerFlags <= c.pointerFlags
    ensures a.unionFlags <= c.unionFlags && a.offsetMap <= c.offsetMap
  {
  }

  /** One more member only appends to each vector. */
  lemma BuildGrows(dl: DataLayout, elems: seq<Type>, n: nat)
    requires 0 < n <= |elems|
    ensures var a := Build(dl, elems, n - 1); var b := Build(dl, elems, n);
      a.arrayFlags <= b.arrayFlags && a.pointerFlags <= b.pointerFlags &&
      a.unionFlags <= b.unionFlags && a.offsetMap <= b.offsetMap
  {
  }

  /** Member j lands at flattened index offsetMap[j], the number of flattened
      fields that members 0..j-1 contribute. */
  lemma {:induction false} OffsetMapCounts(dl: DataLayout, elems: seq<Type>, j: nat)
    requires j < |elems|
    ensures Final(dl, elems).offsetMap[j] == ExpandedCount(elems, j)
  {
    BuildPrefix(dl, elems, j + 1, |elems|);
  }

  /** A member that is not a struct (after stripping arrays) is one leaf: its
      array flag says whether it was declared as an array, its pointer flag
      whether its element type is a pointer, and it is not a union field. */
  lemma {:induction false} LeafFlags(dl: DataLayout, elems: seq<Type>, j: nat)
    requires j < |elems| && !StripArrays(elems[j]).Struct?
    ensures var f := Final(dl, elems); var k := f.offsetMap[j];
      k < |f.arrayFlags| && k < |f.pointerFlags| && k < |f.unionFlags| &&
      f.arrayFlags[k] == elems[j].Array? &&
      f.pointerFlags[k] == StripArrays(elems[j]).Ptr? &&
      !f.unionFlags[k]
  {
    BuildPrefix(dl, elems, j + 1, |elems|);
  }

  /** One struct member appends the nested table's flags. */
  lemma BuildNestedStep(dl: DataLayout, elems: seq<Type>, j: nat)
    requires j < |elems| && StripArrays(elems[j]).Struct?
    ensures var a := Build(dl, elems, j); var b := Build(dl, elems, j + 1);
      var sub := Final(dl, StripArrays(elems[j]).elems);
      b.arrayFlags == a.arrayFlags + sub.arrayFlags &&
      b.pointerFlags == a.pointerFlags + sub.pointerFlags &&
      b.offsetMap == a.offsetMap + [|a.arrayFlags|]
  {
    ElemsHeightBound(elems, j);
  }

  lemma PrefixSlice<T>(a: seq<T>, s: seq<T>, c: seq<T>)
    requires a + s <= c
    ensures c[|a|..|a| + |s|] == s
  {
    assert c[..|a| + |s|] == a + s;
  }

  /** A struct member is spliced in: its own finalized flags follow offsetMap[j]. */
  lemma {:induction false} NestedFields(dl: DataLayout, elems: seq<Type>, j: nat)
    requires j < |elems| && StripArrays(elems[j]).Struct?
    ensures var f := Final(dl, elems); var sub := Final(dl, StripArrays(elems[j]).elems);
      var k := f.offsetMap[j];
      k + |sub.arrayFlags| <= |f.arrayFlags| &&
      k + |sub.pointerFlags| <= |f.pointerFlags| &&
      f.arrayFlags[k..k + |sub.arrayFlags|] == sub.arrayFlags &&
      f.pointerFlags[k..k + |sub.pointerFlags|] == sub.pointerFlags
  {
    BuildNestedStep(dl, elems, j);
    BuildPrefix(dl, elems, j + 1, |elems|);
    FinalizedFields(Build(dl, elems, |elems|));
    SplicedSlices(Build(dl, elems, j), Build(dl, elems, j + 1), Build(dl, elems, |elems|), Final(dl, elems),
      Final(dl, StripArrays(elems[j]).elems), j);
  }

  /** A table b that splices sub after a, inside a longer table f, holds sub's
      flags from f.offsetMap[j] on. */
  lemma SplicedSlices(a: Flat, b: Flat, c: Flat, f: Flat, sub: Flat, j: nat)
    requires |a.offsetMap| == j && |a.pointerFlags| == |a.arrayFlags|
    requires b.arrayFlags == a.arrayFlags + sub.arrayFlags && b.pointerFlags == a.pointerFlags + sub.pointerFlags
    requires b.offsetMap == a.offsetMap + [|a.arrayFlags|]
    requires b.arrayFlags <= c.arrayFlags && b.pointerFlags <= c.pointerFlags && b.offsetMap <= c.offsetMap
    requires f.arrayFlags == c.arrayFlags && f.pointerFlags == c.pointerFlags && f.offsetMap == c.offsetMap
    ensures var k := f.offsetMap[j];
      k + |sub.arrayFlags| <= |f.arrayFlags| &&
      k + |sub.pointerFlags| <= |f.pointerFlags| &&
      f.arrayFlags[k..k + |sub.arrayFlags|] == sub.arrayFlags &&
      f.pointerFlags[k..k + |sub.pointerFlags|] == sub.pointerFlags
  {
    assert b.offsetMap[j] == |a.arrayFlags|;
    PrefixSlice(a.arrayFlags, sub.arrayFlags, c.arrayFlags);
    PrefixSlice(a.pointerFlags, sub.pointerFlags, c.pointerFlags);
  }

  /** The three-argument addField call leaves every union flag false. */
  lemma {:induction false} NoUnionFlags(dl: DataLayout, elems: seq<Type>, n: nat)
    requires n <= |elems|
    decreases ElemsHeight(elems), n
    ensures forall k :: 0 <= k < |Build(dl, elems, n).unionFlags| ==> !Build(dl, elems, n).unionFlags[k]
  {
    if n > 0 {
      NoUnionFlags(dl, elems, n - 1);
      var s := StripArrays(elems[n - 1]);
      if s.Struct? {
        ElemsHeightBound(elems, n - 1);
        NoUnionFlags(dl, s.elems, |s.elems|);
        assert Build(dl, elems, n).unionFlags ==
          Build(dl, elems, n - 1).unionFlags + Build(dl, s.elems, |s.elems|).unionFlags;
      }
    }
  }

  // ---------------------------------------------- element-type map keys

  /** The flattened positions that receive an element type while the first n
      members are processed. With `afterFields` the nested table's types are
      moved by the fieldSize length measured after appendFields, as
      addStructInfo is written; without it, by the position where the nested
      struct starts. */
  function ElementTypeKeys(elems: seq<Type>, n: nat, afterFields: bool): set<nat>
    requires n <= |elems|
    decreases ElemsHeight(elems), n
  {
    if n == 0 then {0}
    else
      var p := ElementTypeKeys(elems, n - 1, afterFields);
      var numField := ExpandedCount(elems, n - 1);
      var s := StripArrays(elems[n - 1]);
      if s.Struct? then
        ElemsHeightBound(elems, n - 1);
        var sub := ElementTypeKeys(s.elems, |s.elems|, afterFields);
        var base := if afterFields then numField + ExpandedSize(s.elems) else numField;
        p + {numField} + (set k | k in sub :: k + base)
      else p + {numField}
  }

  /** With nested types placed where the nested struct starts, no element type
      is recorded past the flattened field count. */
  lemma {:induction false} ElementTypeKeysBound(elems: seq<Type>, n: nat)
    requires n <= |elems|
    decreases ElemsHeight(elems), n
    ensures forall k :: k in ElementTypeKeys(elems, n, false) ==> k <= ExpandedCount(elems, n)
  {
    if n > 0 {
      ElementTypeKeysBound(elems, n - 1);
      var s := StripArrays(elems[n - 1]);
      if s.Struct? {
        ElemsHeightBound(elems, n - 1);
        ElementTypeKeysBound(s.elems, |s.elems|);
      }
    }
  }

  /** A nested struct member adds its own position and the nested table's
      positions, moved by the base the placement picks. */
  lemma ElementTypeKeysNestedStep(elems: seq<Type>, i: nat, afterFields: bool)
    requires i < |elems| && StripArrays(elems[i]).Struct?
    ensures var s := StripArrays(elems[i]); var numField := ExpandedCount(elems, i);
      ExpandedCount(elems, i + 1) == numField + ExpandedSize(s.elems) &&
      ElementTypeKeys(elems, i + 1, afterFields) ==
        ElementTypeKeys(elems, i, afterFields) + {numField} +
        (set k | k in ElementTypeKeys(s.elems, |s.elems|, afterFields) ::
           k + (if afterFields then numField + ExpandedSize(s.elems) else numField))
  {
  }

  /** The as-written placement in one step: a nested member's types are
      moved past its fields. */
  lemma ElementTypeKeysSpliced(elems: seq<Type>, i: nat, keys: set<nat>, subKeys: set<nat>, base: nat)
    requires i < |elems| && StripArrays(elems[i]).Struct?
    requires keys == ElementTypeKeys(elems, i, true) + {ExpandedCount(elems, i)}
    requires subKeys == ElementTypeKeys(StripArrays(elems[i]).elems, |StripArrays(elems[i]).elems|, true)
    requires base == ExpandedCount(elems, i + 1)
    ensures keys + (set k | k in subKeys :: k + base) == ElementTypeKeys(elems, i + 1, true)
  {
    ElementTypeKeysNestedStep(elems, i, true);
  }

  /** Processing more members only adds keys. */
  lemma {:induction false} ElementTypeKeysGrow(elems: seq<Type>, m: nat, n: nat, afterFields: bool)
    requires m <= n <= |elems|
    decreases n
    ensures ElementTypeKeys(elems, m, afterFields) <= ElementTypeKeys(elems, n, afterFields)
  {
    if m < n {
      ElementTypeKeysGrow(elems, m, n - 1, afterFields);
    }
  }

  /** With nested types placed where the nested struct starts, member j's own
      type is recorded at its first flattened field, and every position of a
      nested struct's types is that field plus the position in the nested
      table. */
  lemma ElementTypeKeysAtMember(elems: seq<Type>, j: nat)
    requires j < |elems|
    ensures ExpandedCount(elems, j) in ElementTypeKeys(elems, |elems|, false)
    ensures var s := StripArrays(elems[j]);
      s.Struct? ==> forall k :: k in ElementTypeKeys(s.elems, |s.elems|, false) ==>
        k + ExpandedCount(elems, j) in ElementTypeKeys(elems, |elems|, false)
  {
    ElementTypeKeysGrow(elems, j + 1, |elems|, false);
  }

  // ------------------------------------------------------------ example

  /** struct S { int a; struct { char b[4]; int *c; } inner; } */
  function ExampleInner(): Type {
    Struct("", [Array(Int(8), 4), Ptr(Int(32))], true, false)
  }

  function ExampleOuter(): Type {
    Struct("struct.S", [Int(32), ExampleInner()], false, false)
  }

  /** S flattens to the three leaves a, b, c; only c is a pointer, only b an
      array; member `inner` starts at flattened field 1. */
  lemma ExampleFlattening(dl: DataLayout)
    ensures Final(dl, ExampleOuter().elems).fieldSize == [3, 2, 1]
    ensures Final(dl, ExampleOuter().elems).arrayFlags == [false, true, false]
    ensures Final(dl, ExampleOuter().elems).pointerFlags == [false, false, true]
    ensures Final(dl, ExampleOuter().elems).offsetMap == [0, 1]
    ensures ExpandedSize(ExampleOuter().elems) == 3
  {
    var inner := ExampleInner().elems;
    assert Build(dl, inner, 1).arrayFlags == [true];
    assert Build(dl, inner, 2).arrayFlags == [true, false];
    assert Build(dl, inner, 2).fieldSize == [1, 1];
    assert Final(dl, inner).fieldSize == [2, 1];
    assert ExpandedSize(inner) == 2;
  }

  /** As written, the types of `inner` are recorded at positions 3 and 4 of a
      struct whose flattened fields are 0..2; placed where `inner` starts they
      land on its fields 1 and 2. */
  lemma ElementTypeKeysAsWritten()
    ensures ExpandedSize(ExampleOuter().elems) == 3
    ensures 4 in ElementTypeKeys(ExampleOuter().elems, 2, true)
    ensures ElementTypeKeys(ExampleOuter().elems, 2, false) == {0, 1, 2}
  {
    var inner := ExampleInner().elems;
    assert ElementTypeKeys(inner, 2, true) == {0, 1};
    assert ElementTypeKeys(inner, 2, false) == {0, 1};
    assert ExpandedSize(inner) == 2;
    assert ExpandedCount(ExampleOuter().elems, 1) == 1;
  }

  // ------------------------------------------------------- the record

  function Lookup(m: map<nat, set<Type>>, k: nat): set<Type> {
    if k in m then m[k] else {}
  }

  /** Position k of `m` once the entries of `other` whose keys are in `done`
      have been merged in at their key plus `base`. */
  function Merged(m: map<nat, set<Type>>, other: map<nat, set<Type>>, done: set<nat>, base: nat, k: nat): set<Type> {
    Lookup(m, k) + (if k >= base && (k - base) in done && (k - base) in other then other[k - base] else {})
  }

  ghost predicate MergedUpTo(cur: map<nat, set<Type>>, m: map<nat, set<Type>>, other: map<nat, set<Type>>,
                             done: set<nat>, base: nat)
  {
    (forall k: nat :: k in cur <==> (k in m || (k >= base && (k - base) in done))) &&
    (forall k: nat :: Lookup(cur, k) == Merged(m, other, done, base, k))
  }

  /** One iteration of appendElementType's loop merges one more entry. */
  lemma MergeStep(cur: map<nat, set<Type>>, m: map<nat, set<Type>>, other: map<nat, set<Type>>,
                  done: set<nat>, base: nat, j: nat)
    requires j in other
    requires MergedUpTo(cur, m, other, done, base)
    ensures MergedUpTo(cur[j + base := Lookup(cur, j + base) + other[j]], m, other, done + {j}, base)
  {
    var next := cur[j + base := Lookup(cur, j + base) + other[j]];
    forall k: nat
      ensures Lookup(next, k) == Merged(m, other, done + {j}, base, k)
    {
      assert Lookup(cur, k) == Merged(m, other, done, base, k);
    }
  }

  /** After the whole merge the keys are the old ones plus the moved nested ones. */
  lemma MergedKeys(cur: map<nat, set<Type>>, m: map<nat, set<Type>>, other: map<nat, set<Type>>, base: nat)
    requires MergedUpTo(cur, m, other, other.Keys, base)
    ensures cur.Keys == m.Keys + (set k | k in other :: k + base)
  {
    forall k | k in cur.Keys
      ensures k in m.Keys + (set k | k in other :: k + base)
    {
      if k !in m {
        var j: nat := k - base;
        assert j in other && k == j + base;
      }
    }
  }

  /** The record addStructInfo builds for one struct type. The data layout and
      module pointers it keeps are not fields here: finalize takes the layout
      as a parameter. */
  class StructInfo {
    var arrayFlags: seq<bool>
    var pointerFlags: seq<bool>
    var unionFlags: seq<bool>
    var fieldSize: seq<nat>
    var offsetMap: seq<nat>
    var fieldOffset: seq<nat>
    var fieldRealSize: seq<nat>
    var elementType: map<nat, set<Type>>
    var stType: Option<Type>
    var containers: set<(Type, nat)>
    var allocSize: nat
    var finalized: bool

    constructor ()
      ensures Shape() == EmptyFlat && elementType == map[] && stType == None
      ensures containers == {} && allocSize == 0 && !finalized
    {
      arrayFlags, pointerFlags, unionFlags := [], [], [];
      fieldSize, offsetMap, fieldOffset, fieldRealSize := [], [], [], [];
      elementType := map[];
      stType := None;
      containers := {};
      allocSize := 0;
      finalized := false;
    }

    function Shape(): Flat
      reads this`fieldSize, this`arrayFlags, this`pointerFlags, this`unionFlags, this`offsetMap,
        this`fieldOffset, this`fieldRealSize
    {
      Flat(fieldSize, arrayFlags, pointerFlags, unionFlags, offsetMap, fieldOffset, fieldRealSize)
    }

    /** This is the finished record of struct type k: its vectors are the
        flattening of k's members, its size k's alloc size (0 when unsized),
        and its element types sit at the positions the members start at. */
    ghost predicate ContentIs(dl: DataLayout, k: Type)
      reads this`fieldSize, this`arrayFlags, this`pointerFlags, this`unionFlags, this`offsetMap,
        this`fieldOffset, this`fieldRealSize, this`elementType, this`stType, this`allocSize, this`finalized
    {
      k.Struct? && finalized && stType == Some(k) &&
      Shape() == Final(dl, k.elems) &&
      allocSize == (if IsSized(k) then AllocSize(dl, k) else 0) &&
      elementType.Keys == ElementTypeKeys(k.elems, |k.elems|, true)
    }

    method AddOffsetMap(newOffsetMap: nat)
      modifies this`offsetMap
      ensures offsetMap == old(offsetMap) + [newOffsetMap]
    {
      offsetMap := offsetMap + [newOffsetMap];
    }

    /** One leaf: one entry on each of the four parallel vectors. */
    method AddField(newFieldSize: nat, isArray: bool, isPointer: bool, isUnion: bool)
      modifies this`fieldSize, this`arrayFlags, this`pointerFlags, this`unionFlags
      ensures fieldSize == old(fieldSize) + [newFieldSize]
      ensures arrayFlags == old(arrayFlags) + [isArray]
      ensures pointerFlags == old(pointerFlags) + [isPointer]
      ensures unionFlags == old(unionFlags) + [isUnion]
      ensures |old(fieldSize)| == |old(arrayFlags)| == |old(pointerFlags)| == |old(unionFlags)| ==>
        |fieldSize| == |arrayFlags| == |pointerFlags| == |unionFlags|
    {
      fieldSize := fieldSize + [newFieldSize];
      arrayFlags := arrayFlags + [isArray];
      pointerFlags := pointerFlags + [isPointer];
      unionFlags := unionFlags + [isUnion];
    }

    method AddFieldOffset(newOffset: nat)
      modifies this`fieldOffset
      ensures fieldOffset == old(fieldOffset) + [newOffset]
    {
      fieldOffset := fieldOffset + [newOffset];
    }

    /** Splices a nested record's vectors; its fieldSize only when it has fields. */
    method AppendFields(other: StructInfo)
      requires other != this
      requires |other.fieldSize| > 0
      modifies this`fieldSize, this`arrayFlags, this`pointerFlags, this`unionFlags, this`fieldRealSize
      ensures fieldSize == old(fieldSize) + (if other.fieldSize[0] == 0 then [] else other.fieldSize)
      ensures arrayFlags == old(arrayFlags) + other.arrayFlags
      ensures pointerFlags == old(pointerFlags) + other.pointerFlags
      ensures unionFlags == old(unionFlags) + other.unionFlags
      ensures fieldRealSize == old(fieldRealSize) + other.fieldRealSize
    {
      if other.fieldSize[0] != 0 {
        fieldSize := fieldSize + other.fieldSize;
      }
      arrayFlags := arrayFlags + other.arrayFlags;
      pointerFlags := pointerFlags + other.pointerFlags;
      unionFlags := unionFlags + other.unionFlags;
      fieldRealSize := fieldRealSize + other.fieldRealSize;
    }

    /** Pushes base + o for every non-zero offset o of the nested record, where
        base is the last offset recorded here. */
    method AppendFieldOffset(other: StructInfo)
      requires other != this
      requires |fieldOffset| > 0
      modifies this`fieldOffset
      ensures fieldOffset == old(fieldOffset) + ShiftNonZero(other.fieldOffset, old(fieldOffset[|fieldOffset| - 1]))
    {
      var base := fieldOffset[|fieldOffset| - 1];
      var i := 0;
      while i < |other.fieldOffset|
        invariant 0 <= i <= |other.fieldOffset|
        invariant fieldOffset == old(fieldOffset) + ShiftNonZero(other.fieldOffset[..i], base)
      {
        var o := other.fieldOffset[i];
        assert other.fieldOffset[..i + 1][..i] == other.fieldOffset[..i];
        if o != 0 {
          fieldOffset := fieldOffset + [o + base];
        }
        i := i + 1;
      }
      assert other.fieldOffset[..i] == other.fieldOffset;
    }

    method AddElementType(field: nat, ty: Type)
      modifies this`elementType
      ensures elementType == old(elementType)[field := Lookup(old(elementType), field) + {ty}]
      ensures elementType.Keys == old(elementType.Keys) + {field}
    {
      elementType := elementType[field := Lookup(elementType, field) + {ty}];
    }

    /** Merges the nested record's element types in, each position moved by
        the current length of fieldSize. */
    method AppendElementType(other: StructInfo)
      requires other != this
      modifies this`elementType
      ensures MergedUpTo(elementType, old(elementType), other.elementType, other.elementType.Keys, |fieldSize|)
      ensures elementType.Keys == old(elementType).Keys + (set k | k in other.elementType :: k + |fieldSize|)
    {
      var base := |fieldSize|;
      var todo := other.elementType.Keys;
      ghost var done: set<nat> := {};
      while todo != {}
        invariant todo + done == other.elementType.Keys && todo !! done
        invariant MergedUpTo(elementType, old(elementType), other.elementType, done, base)
        decreases |todo|
      {
        var j :| j in todo;
        MergeStep(elementType, old(elementType), other.elementType, done, base, j);
        elementType := elementType[j + base := Lookup(elementType, j + base) + other.elementType[j]];
        todo := todo - {j};
        done := done + {j};
      }
      MergedKeys(elementType, old(elementType), other.elementType, base);
    }

    /** Must follow the last member: fixes fieldSize[0] to the flattened field
        count and records the alloc size of the real type (0 when unsized). */
    method Finalize(dl: DataLayout)
      requires stType.Some?
      requires |fieldSize| == |arrayFlags| && |pointerFlags| == |arrayFlags| && |unionFlags| == |arrayFlags|
      modifies this`fieldSize, this`allocSize, this`finalized
      ensures Shape() == Finalized(old(Shape()))
      ensures fieldSize[0] == |arrayFlags|
      ensures allocSize == if IsSized(stType.value) then AllocSize(dl, stType.value) else 0
      ensures finalized
    {
      var numField := |fieldSize|;
      if numField == 0 {
        fieldSize := [0];
      }
      fieldSize := fieldSize[0 := numField];
      if IsSized(stType.value) {
        allocSize := AllocSize(dl, stType.value);
      } else {
        allocSize := 0;
      }
      finalized := true;
    }

    function GetExpandedSize(): nat
      reads this
    {
      |arrayFlags|
    }

    function GetSize(): nat
      reads this
    {
      |offsetMap|
    }

    predicate IsEmpty()
      reads this
      requires |fieldSize| > 0
    {
      fieldSize[0] == 0
    }

    /** `st` exactly when (st, offset) is a recorded container, else none. */
    function GetContainer(st: Type, offset: nat): (r: Option<Type>)
      reads this
      requires st.Struct? && !st.isOpaque
      ensures r.Some? <==> (st, offset) in containers
      ensures r.Some? ==> r.value == st
    {
      if (st, offset) in containers then Some(st) else None
    }
  }
}
