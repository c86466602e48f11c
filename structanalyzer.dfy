// StructAnalyzer: builds and memoizes one StructInfo per struct type, keyed by
// the type and, for named structs, by scope name; records container
// back-edges between nested records.
module StructAnalysis {
  import opened Llvm
  import opened Flatten

  /** computeStructInfo's lookup: a named struct stands for the struct first
      registered under its scope name, when there is one. */
  function ResolveIn(structMap: map<string, Type>, scopeName: Type -> string, t: Type): Type {
    if t.Struct? && !t.isLiteral && scopeName(t) in structMap then structMap[scopeName(t)] else t
  }

  /** A scope-name clash as the lookup meets it: struct.S holds a struct.S.0
      of another body, and both carry scope name S, under which struct.S was
      registered first. Resolving the member yields struct.S itself, whose
      record is still being built when addStructInfo asks for the member's. */
  lemma ScopeClashNestsItself()
    ensures var inner := Struct("struct.S.0", [Int(8)], false, false);
      var outer := Struct("struct.S", [Int(32), inner], false, false);
      var scope := (t: Type) => if t.Struct? then "S" else "";
      !ScopeConsistent(scope) &&
      ResolveIn(map["S" := outer], scope, StripArrays(outer.elems[1])) == outer
  {
    var inner := Struct("struct.S.0", [Int(8)], false, false);
    var outer := Struct("struct.S", [Int(32), inner], false, false);
    var scope := (t: Type) => if t.Struct? then "S" else "";
    assert ScopeOf(scope, inner) == ScopeOf(scope, outer) && inner.elems != outer.elems;
  }

  /** When structs sharing a scope name share their members, and every
      registered representative carries the scope name it is registered
      under, a nested member resolves to a struct strictly lower than its
      parent: never the parent, whose record is unfinished. */
  lemma NestedResolvesLower(structMap: map<string, Type>, scopeName: Type -> string, st: Type, j: nat)
    requires ScopeConsistent(scopeName)
    requires forall name :: name in structMap ==>
      structMap[name].Struct? && !structMap[name].isLiteral && !structMap[name].isOpaque &&
      scopeName(structMap[name]) == name
    requires st.Struct? && j < |st.elems|
    requires StripArrays(st.elems[j]).Struct? && !StripArrays(st.elems[j]).isOpaque
    ensures ResolveIn(structMap, scopeName, StripArrays(st.elems[j])).elems == StripArrays(st.elems[j]).elems
    ensures Height(ResolveIn(structMap, scopeName, StripArrays(st.elems[j]))) < Height(st)
    ensures ResolveIn(structMap, scopeName, StripArrays(st.elems[j])) != st
  {
    var m := StripArrays(st.elems[j]);
    ElemsHeightBound(st.elems, j);
    if !m.isLiteral && scopeName(m) in structMap {
      var v := structMap[scopeName(m)];
      assert ScopeOf(scopeName, v) == ScopeOf(scopeName, m);
    }
  }

  /** The keys the nested structs among the first n members of k resolve
      to. */
  ghost function NestedKeysIn(structMap: map<string, Type>, scopeName: Type -> string, k: Type, n: nat): set<Type>
    requires k.Struct? && n <= |k.elems|
  {
    if n == 0 then {}
    else
      var s := StripArrays(k.elems[n - 1]);
      NestedKeysIn(structMap, scopeName, k, n - 1) + (if s.Struct? then {ResolveIn(structMap, scopeName, s)} else {})
  }

  /** The key whose record getStructInfo returns: the type itself first, then
      its representative. */
  function InfoKeyIn(keys: set<Type>, structMap: map<string, Type>, scopeName: Type -> string, t: Type): (r: Option<Type>)
    ensures r.Some? ==> r.value in keys
    ensures r.None? <==> t !in keys && ResolveIn(structMap, scopeName, t) !in keys
  {
    if t in keys then Some(t)
    else
      var rep := ResolveIn(structMap, scopeName, t);
      if rep in keys then Some(rep) else None
  }

  /** Every type in s is lower than bound. */
  ghost predicate AllLower(s: set<Type>, bound: nat) {
    forall k :: k in s ==> Height(k) < bound
  }

  /** Struct names of the anonymous structs and unions the front end emits. */
  predicate IsAnonName(name: string) {
    StartsWith(name, "struct.anon") || StartsWith(name, "union.anon")
  }

  /** Every (ck, o) of s has (container, o + offset) in target: the pairs
      addContainer passes on through a nested record. */
  ghost predicate PassedOn(s: set<(Type, nat)>, ck: Type, container: Type, offset: nat, target: set<(Type, nat)>) {
    forall p {:trigger p in s} :: p in s && p.0 == ck ==> (container, p.1 + offset) in target
  }

  lemma PassedOnStep(s: set<(Type, nat)>, item: (Type, nat), ck: Type, container: Type, offset: nat,
                     before: set<(Type, nat)>, after: set<(Type, nat)>)
    requires PassedOn(s, ck, container, offset, before) && before <= after
    requires item.0 == ck ==> (container, item.1 + offset) in after
    ensures PassedOn(s + {item}, ck, container, offset, after)
  {
  }

  lemma PassedOnMono(s: set<(Type, nat)>, t: set<(Type, nat)>, ck: Type, container: Type, offset: nat, target: set<(Type, nat)>)
    requires s <= t && PassedOn(t, ck, container, offset, target)
    ensures PassedOn(s, ck, container, offset, target)
  {
  }

  /** Each key's container pairs in a are kept in b. */
  ghost predicate GrownIn(a: map<Type, set<(Type, nat)>>, b: map<Type, set<(Type, nat)>>) {
    a.Keys == b.Keys && forall k :: k in a ==> a[k] <= b[k]
  }

  /** From the container pairs `before` to `after`: through the nested
      struct S of each of the first n members of ck, every (ck, o) that S
      had has (container, o + offset) on S. */
  ghost predicate PassedBelowIn(before: map<Type, set<(Type, nat)>>, after: map<Type, set<(Type, nat)>>,
                                structMap: map<string, Type>, scopeName: Type -> string,
                                ck: Type, container: Type, offset: nat, n: nat)
  {
    ck.Struct? && n <= |ck.elems| &&
    forall j ::
      (0 <= j < n && StripArrays(ck.elems[j]).Struct? &&
       ResolveIn(structMap, scopeName, StripArrays(ck.elems[j])) in before &&
       ResolveIn(structMap, scopeName, StripArrays(ck.elems[j])) in after) ==>
      PassedOn(before[ResolveIn(structMap, scopeName, StripArrays(ck.elems[j]))], ck, container, offset,
               after[ResolveIn(structMap, scopeName, StripArrays(ck.elems[j]))])
  }

  /** One more member of ck passed on, while all pairs are kept. */
  lemma PassedBelowStep(before: map<Type, set<(Type, nat)>>, mid: map<Type, set<(Type, nat)>>,
                        after: map<Type, set<(Type, nat)>>, structMap: map<string, Type>, scopeName: Type -> string,
                        ck: Type, container: Type, offset: nat, i: nat)
    requires PassedBelowIn(before, mid, structMap, scopeName, ck, container, offset, i) && i < |ck.elems|
    requires GrownIn(before, mid) && GrownIn(mid, after)
    requires var s := StripArrays(ck.elems[i]); var key := ResolveIn(structMap, scopeName, s);
      s.Struct? ==> key in mid && PassedOn(mid[key], ck, container, offset, after[key])
    ensures PassedBelowIn(before, after, structMap, scopeName, ck, container, offset, i + 1)
    ensures GrownIn(before, after)
  {
    forall j | 0 <= j < i + 1 && StripArrays(ck.elems[j]).Struct? &&
      ResolveIn(structMap, scopeName, StripArrays(ck.elems[j])) in before
      ensures PassedOn(before[ResolveIn(structMap, scopeName, StripArrays(ck.elems[j]))], ck, container, offset,
                       after[ResolveIn(structMap, scopeName, StripArrays(ck.elems[j]))])
    {
      var key := ResolveIn(structMap, scopeName, StripArrays(ck.elems[j]));
      if j < i {
        PassedOnGrow(before[key], ck, container, offset, mid[key], after[key]);
      } else {
        PassedOnMono(before[key], mid[key], ck, container, offset, after[key]);
      }
    }
  }

  lemma PassedOnGrow(s: set<(Type, nat)>, ck: Type, container: Type, offset: nat,
                     target: set<(Type, nat)>, target': set<(Type, nat)>)
    requires PassedOn(s, ck, container, offset, target) && target <= target'
    ensures PassedOn(s, ck, container, offset, target')
  {
  }

  /** The key reached from k by the path q of (member index, offset) steps
      through the container pairs c, with the sum of the offsets: each step
      goes from k to the key its member resolves to, on whose record
      (k, offset) is recorded. None when a step is not recorded. */
  ghost function Walk(c: map<Type, set<(Type, nat)>>, structMap: map<string, Type>, scopeName: Type -> string,
                      k: Type, q: seq<(nat, nat)>): (r: Option<(Type, nat)>)
    decreases |q|
    ensures r.Some? ==> r.value.0 in c
  {
    if k !in c then None
    else if q == [] then Some((k, 0))
    else if k.Struct? && q[0].0 < |k.elems| && StripArrays(k.elems[q[0].0]).Struct? then
      var s := ResolveIn(structMap, scopeName, StripArrays(k.elems[q[0].0]));
      if s in c && (k, q[0].1) in c[s] then
        match Walk(c, structMap, scopeName, s, q[1..])
        case Some(w) => Some((w.0, q[0].1 + w.1))
        case None => None
      else None
    else None
  }

  /** For every path Walk follows from k through `before`, the end key's
      record holds (container, offset + the path's offset) in `after`. */
  ghost predicate ReachedIn(before: map<Type, set<(Type, nat)>>, after: map<Type, set<(Type, nat)>>,
                            structMap: map<string, Type>, scopeName: Type -> string,
                            k: Type, container: Type, offset: nat)
  {
    forall q {:trigger Walk(before, structMap, scopeName, k, q)} ::
      Walk(before, structMap, scopeName, k, q).Some? ==>
      Walk(before, structMap, scopeName, k, q).value.0 in after &&
      (container, offset + Walk(before, structMap, scopeName, k, q).value.1) in after[Walk(before, structMap, scopeName, k, q).value.0]
  }

  /** Every (ck, o) of s reaches, from st, every path of `before` with the
      container at o + offset. */
  ghost predicate DeepOn(s: set<(Type, nat)>, before: map<Type, set<(Type, nat)>>, after: map<Type, set<(Type, nat)>>,
                         structMap: map<string, Type>, scopeName: Type -> string,
                         ck: Type, st: Type, container: Type, offset: nat)
  {
    forall p {:trigger p in s} :: p in s && p.0 == ck ==>
      ReachedIn(before, after, structMap, scopeName, st, container, p.1 + offset)
  }

  /** DeepOn for the nested struct of each of the first n members of ck. */
  ghost predicate DeepBelowIn(before: map<Type, set<(Type, nat)>>, after: map<Type, set<(Type, nat)>>,
                              structMap: map<string, Type>, scopeName: Type -> string,
                              ck: Type, container: Type, offset: nat, n: nat)
  {
    ck.Struct? && n <= |ck.elems| &&
    forall j ::
      (0 <= j < n && StripArrays(ck.elems[j]).Struct? &&
       ResolveIn(structMap, scopeName, StripArrays(ck.elems[j])) in before) ==>
      DeepOn(before[ResolveIn(structMap, scopeName, StripArrays(ck.elems[j]))], before, after, structMap, scopeName,
             ck, ResolveIn(structMap, scopeName, StripArrays(ck.elems[j])), container, offset)
  }

  /** A path recorded in a is recorded, with the same end, in a map that
      only gained pairs. */
  lemma {:induction false} WalkMono(a: map<Type, set<(Type, nat)>>, b: map<Type, set<(Type, nat)>>,
                                    structMap: map<string, Type>, scopeName: Type -> string, k: Type, q: seq<(nat, nat)>)
    requires GrownIn(a, b) && Walk(a, structMap, scopeName, k, q).Some?
    decreases |q|
    ensures Walk(b, structMap, scopeName, k, q) == Walk(a, structMap, scopeName, k, q)
  {
    if q != [] {
      var s := ResolveIn(structMap, scopeName, StripArrays(k.elems[q[0].0]));
      WalkMono(a, b, structMap, scopeName, s, q[1..]);
    }
  }

  /** Fewer paths to follow and more pairs recorded keep ReachedIn. */
  lemma ReachedWeaken(b1: map<Type, set<(Type, nat)>>, b2: map<Type, set<(Type, nat)>>,
                      a1: map<Type, set<(Type, nat)>>, a2: map<Type, set<(Type, nat)>>,
                      structMap: map<string, Type>, scopeName: Type -> string, k: Type, container: Type, offset: nat)
    requires GrownIn(b1, b2) && GrownIn(a1, a2)
    requires ReachedIn(b2, a1, structMap, scopeName, k, container, offset)
    ensures ReachedIn(b1, a2, structMap, scopeName, k, container, offset)
  {
    forall q: seq<(nat, nat)> | Walk(b1, structMap, scopeName, k, q).Some?
      ensures Walk(b1, structMap, scopeName, k, q).value.0 in a2
      ensures (container, offset + Walk(b1, structMap, scopeName, k, q).value.1) in a2[Walk(b1, structMap, scopeName, k, q).value.0]
    {
      WalkMono(b1, b2, structMap, scopeName, k, q);
    }
  }

  lemma DeepOnWeaken(s: set<(Type, nat)>, t: set<(Type, nat)>, b1: map<Type, set<(Type, nat)>>, b2: map<Type, set<(Type, nat)>>,
                     a1: map<Type, set<(Type, nat)>>, a2: map<Type, set<(Type, nat)>>,
                     structMap: map<string, Type>, scopeName: Type -> string, ck: Type, st: Type, container: Type, offset: nat)
    requires s <= t && GrownIn(b1, b2) && GrownIn(a1, a2)
    requires DeepOn(t, b2, a1, structMap, scopeName, ck, st, container, offset)
    ensures DeepOn(s, b1, a2, structMap, scopeName, ck, st, container, offset)
  {
    forall p | p in s && p.0 == ck
      ensures ReachedIn(b1, a2, structMap, scopeName, st, container, p.1 + offset)
    {
      ReachedWeaken(b1, b2, a1, a2, structMap, scopeName, st, container, p.1 + offset);
    }
  }

  /** One more container pair of st passed on, the earlier ones kept. */
  lemma DeepOnStep(seen: set<(Type, nat)>, item: (Type, nat), b: map<Type, set<(Type, nat)>>,
                   mid: map<Type, set<(Type, nat)>>, after: map<Type, set<(Type, nat)>>,
                   structMap: map<string, Type>, scopeName: Type -> string, ck: Type, st: Type, container: Type, offset: nat)
    requires GrownIn(b, mid) && GrownIn(mid, after)
    requires DeepOn(seen, b, mid, structMap, scopeName, ck, st, container, offset)
    requires item.0 == ck ==> ReachedIn(mid, after, structMap, scopeName, st, container, item.1 + offset)
    ensures DeepOn(seen + {item}, b, after, structMap, scopeName, ck, st, container, offset)
  {
    DeepOnWeaken(seen, seen, b, b, mid, after, structMap, scopeName, ck, st, container, offset);
    if item.0 == ck {
      ReachedWeaken(b, mid, after, after, structMap, scopeName, st, container, item.1 + offset);
    }
  }

  /** One more member of ck passed on deeply, while all pairs are kept. */
  lemma DeepBelowStep(before: map<Type, set<(Type, nat)>>, mid: map<Type, set<(Type, nat)>>,
                      after: map<Type, set<(Type, nat)>>, structMap: map<string, Type>, scopeName: Type -> string,
                      ck: Type, container: Type, offset: nat, i: nat)
    requires DeepBelowIn(before, mid, structMap, scopeName, ck, container, offset, i) && i < |ck.elems|
    requires GrownIn(before, mid) && GrownIn(mid, after)
    requires var s := StripArrays(ck.elems[i]); var key := ResolveIn(structMap, scopeName, s);
      s.Struct? ==> key in mid && DeepOn(mid[key], mid, after, structMap, scopeName, ck, key, container, offset)
    ensures DeepBelowIn(before, after, structMap, scopeName, ck, container, offset, i + 1)
  {
    forall j | 0 <= j < i + 1 && StripArrays(ck.elems[j]).Struct? &&
      ResolveIn(structMap, scopeName, StripArrays(ck.elems[j])) in before
      ensures DeepOn(before[ResolveIn(structMap, scopeName, StripArrays(ck.elems[j]))], before, after, structMap, scopeName,
                     ck, ResolveIn(structMap, scopeName, StripArrays(ck.elems[j])), container, offset)
    {
      var key := ResolveIn(structMap, scopeName, StripArrays(ck.elems[j]));
      if j < i {
        DeepOnWeaken(before[key], before[key], before, before, mid, after, structMap, scopeName, ck, key, container, offset);
      } else {
        DeepOnWeaken(before[key], mid[key], before, mid, after, after, structMap, scopeName, ck, key, container, offset);
      }
    }
  }

  /** The pair on ck itself and the deep pass-on through each member give
      every path from ck. */
  lemma ReachedFromMembers(before: map<Type, set<(Type, nat)>>, after: map<Type, set<(Type, nat)>>,
                           structMap: map<string, Type>, scopeName: Type -> string, ck: Type, container: Type, offset: nat)
    requires ck.Struct? && ck in after && (container, offset) in after[ck]
    requires DeepBelowIn(before, after, structMap, scopeName, ck, container, offset, |ck.elems|)
    ensures ReachedIn(before, after, structMap, scopeName, ck, container, offset)
  {
    forall q: seq<(nat, nat)> | Walk(before, structMap, scopeName, ck, q).Some?
      ensures Walk(before, structMap, scopeName, ck, q).value.0 in after
      ensures (container, offset + Walk(before, structMap, scopeName, ck, q).value.1) in after[Walk(before, structMap, scopeName, ck, q).value.0]
    {
      if q != [] {
        var key := ResolveIn(structMap, scopeName, StripArrays(ck.elems[q[0].0]));
        assert (ck, q[0].1) in before[key];
        assert ReachedIn(before, after, structMap, scopeName, key, container, q[0].1 + offset);
        assert Walk(before, structMap, scopeName, key, q[1..]).Some?;
      }
    }
  }

  // ----------------------------------------- the invariant over one map

  /** The record registered under k in m. */
  ghost function RecordIn(m: map<Type, StructInfo>, k: Type): StructInfo
    requires k in m
  {
    m[k]
  }

  /** Every key is a defined struct no taller than h with no opaque struct inside. */
  ghost predicate KeysIn(m: map<Type, StructInfo>, h: nat) {
    forall k {:trigger RecordIn(m, k)} :: k in m ==>
      k.Struct? && !k.isOpaque && Height(k) <= h && NoNestedOpaque(k.elems, |k.elems|)
  }

  /** The largest-struct count `bound` covers every key. */
  ghost predicate SizesIn(m: map<Type, StructInfo>, bound: nat) {
    forall k {:trigger RecordIn(m, k)} :: k in m && k.Struct? ==> ExpandedSize(k.elems) <= bound
  }

  /** Every record is registered under the type it describes. */
  ghost predicate TypesIn(m: map<Type, StructInfo>)
    reads m.Values`stType
  {
    forall k {:trigger RecordIn(m, k)} :: k in m ==> k.Struct? && RecordIn(m, k).stType == Some(k)
  }

  /** Every record is the finalized flattening of its key. */
  ghost predicate ContentsIn(m: map<Type, StructInfo>, dl: DataLayout)
    reads m.Values`fieldSize, m.Values`arrayFlags, m.Values`pointerFlags, m.Values`unionFlags,
      m.Values`offsetMap, m.Values`fieldOffset, m.Values`fieldRealSize, m.Values`elementType,
      m.Values`stType, m.Values`allocSize, m.Values`finalized
  {
    forall k {:trigger RecordIn(m, k)} :: k in m ==> RecordIn(m, k).ContentIs(dl, k)
  }

  /** Containers are defined structs strictly taller than the containee. */
  ghost predicate ContainersIn(m: map<Type, StructInfo>)
    reads m.Values`containers
  {
    forall k, p {:trigger p in m[k].containers} :: k in m && p in m[k].containers ==>
      p.0.Struct? && !p.0.isOpaque && Height(p.0) > Height(k)
  }

  /** Registering a new record keeps each part of the invariant. */
  lemma KeysInsert(m: map<Type, StructInfo>, h: nat, st: Type, info: StructInfo, h': nat)
    requires KeysIn(m, h) && st !in m
    requires st.Struct? && !st.isOpaque && NoNestedOpaque(st.elems, |st.elems|)
    requires h' >= h && h' >= Height(st)
    ensures KeysIn(m[st := info], h')
  {
    forall k | k in m
      ensures RecordIn(m, k) == RecordIn(m[st := info], k)
    {
    }
    assert RecordIn(m[st := info], st) == info;
  }

  lemma SizesInsert(m: map<Type, StructInfo>, bound: nat, st: Type, info: StructInfo, bound': nat)
    requires SizesIn(m, bound) && st !in m
    requires st.Struct? && bound' >= bound && bound' >= ExpandedSize(st.elems)
    ensures SizesIn(m[st := info], bound')
  {
    forall k | k in m
      ensures RecordIn(m, k) == RecordIn(m[st := info], k)
    {
    }
    assert RecordIn(m[st := info], st) == info;
  }

  lemma TypesInsert(m: map<Type, StructInfo>, st: Type, info: StructInfo)
    requires TypesIn(m) && st !in m
    requires st.Struct? && info.stType == Some(st)
    ensures TypesIn(m[st := info])
  {
    forall k | k in m
      ensures RecordIn(m, k) == RecordIn(m[st := info], k)
    {
    }
    assert RecordIn(m[st := info], st) == info;
  }

  lemma ContentsInsert(m: map<Type, StructInfo>, dl: DataLayout, st: Type, info: StructInfo)
    requires ContentsIn(m, dl) && st !in m
    requires info.ContentIs(dl, st)
    ensures ContentsIn(m[st := info], dl)
  {
    forall k | k in m
      ensures RecordIn(m, k) == RecordIn(m[st := info], k)
    {
    }
    assert RecordIn(m[st := info], st) == info;
  }

  lemma ContainersInsert(m: map<Type, StructInfo>, st: Type, info: StructInfo)
    requires ContainersIn(m) && st !in m
    requires info.containers == {}
    ensures ContainersIn(m[st := info])
  {
  }

  // ------------------------------------------------------------ run

  /** The scope-name map after run meets st: a defined named struct whose
      scope name is new becomes its representative. */
  function RunRegisters(sm: map<string, Type>, scopeName: Type -> string, st: Type): map<string, Type>
    requires st.Struct?
  {
    if st.isLiteral || st.isOpaque || scopeName(st) in sm then sm else sm[scopeName(st) := st]
  }

  /** Struct t has a record: a literal under itself, a named struct under the
      representative of its scope name. */
  ghost predicate AnalyzedIn(sm: map<string, Type>, keys: set<Type>, scopeName: Type -> string, t: Type)
    requires t.Struct?
  {
    if t.isLiteral then t in keys else scopeName(t) in sm && sm[scopeName(t)] in keys
  }

  /** Some defined named struct among the first i has this scope name. */
  ghost predicate Registered(types: seq<Type>, i: nat, scopeName: Type -> string, name: string)
    requires i <= |types|
  {
    exists j :: 0 <= j < i && types[j].Struct? && !types[j].isLiteral && !types[j].isOpaque &&
      scopeName(types[j]) == name
  }

  /** types[i] is a defined named struct, its scope name is not among the
      known ones, and no earlier defined named struct shares it: the type
      run registers under that name. */
  ghost predicate FirstOfScope(types: seq<Type>, i: nat, known: set<string>, scopeName: Type -> string)
    requires i < |types|
  {
    types[i].Struct? && !types[i].isLiteral && !types[i].isOpaque &&
    scopeName(types[i]) !in known && !Registered(types, i, scopeName, scopeName(types[i]))
  }

  /** What run has established after the first i types, from the known
      scope names: the old names keep their types, every new name is the
      scope name of a type seen, every defined type seen is free of nested
      opaque structs and analyzed, and a first type of its scope represents
      it. */
  ghost predicate RunDone(types: seq<Type>, i: nat, sm: map<string, Type>, keys: set<Type>,
                          known: map<string, Type>, scopeName: Type -> string)
  {
    i <= |types| && (forall j :: 0 <= j < |types| ==> types[j].Struct?) &&
    NamesSeen(types, i, sm, known, scopeName) && TypesDone(types, i, sm, keys, scopeName) &&
    FirstsKept(types, i, sm, known, scopeName)
  }

  ghost predicate NamesSeen(types: seq<Type>, i: nat, sm: map<string, Type>,
                            known: map<string, Type>, scopeName: Type -> string)
    requires i <= |types|
  {
    (forall name :: name in known ==> name in sm && sm[name] == known[name]) &&
    (forall name :: name in sm ==> name in known || Registered(types, i, scopeName, name))
  }

  ghost predicate TypesDone(types: seq<Type>, i: nat, sm: map<string, Type>, keys: set<Type>, scopeName: Type -> string)
    requires i <= |types| && forall j :: 0 <= j < |types| ==> types[j].Struct?
  {
    forall j :: 0 <= j < i && !types[j].isOpaque ==>
      NoNestedOpaque(types[j].elems, |types[j].elems|) && AnalyzedIn(sm, keys, scopeName, types[j])
  }

  ghost predicate FirstsKept(types: seq<Type>, i: nat, sm: map<string, Type>,
                             known: map<string, Type>, scopeName: Type -> string)
    requires i <= |types|
  {
    forall j :: 0 <= j < i && FirstOfScope(types, j, known.Keys, scopeName) ==>
      scopeName(types[j]) in sm && sm[scopeName(types[j])] == types[j]
  }

  lemma RunDoneStart(types: seq<Type>, sm: map<string, Type>, keys: set<Type>, scopeName: Type -> string)
    requires forall j :: 0 <= j < |types| ==> types[j].Struct?
    ensures RunDone(types, 0, sm, keys, sm, scopeName) == true
  {
  }

  /** One pass of run's loop keeps RunDone. */
  lemma RunDoneStep(types: seq<Type>, i: nat, sm: map<string, Type>, keys: set<Type>,
                    sm': map<string, Type>, keys': set<Type>, known: map<string, Type>, scopeName: Type -> string)
    requires RunDone(types, i, sm, keys, known, scopeName) == true && i < |types|
    requires keys <= keys' && sm' == RunRegisters(sm, scopeName, types[i])
    requires !types[i].isOpaque ==>
      NoNestedOpaque(types[i].elems, |types[i].elems|) && AnalyzedIn(sm', keys', scopeName, types[i])
    ensures RunDone(types, i + 1, sm', keys', known, scopeName) == true
  {
    NamesSeenStep(types, i, sm, sm', known, scopeName);
    TypesDoneStep(types, i, sm, keys, sm', keys', scopeName);
    FirstsKeptStep(types, i, sm, sm', known, scopeName);
  }

  lemma NamesSeenStep(types: seq<Type>, i: nat, sm: map<string, Type>, sm': map<string, Type>,
                      known: map<string, Type>, scopeName: Type -> string)
    requires i < |types| && types[i].Struct? && NamesSeen(types, i, sm, known, scopeName)
    requires sm' == RunRegisters(sm, scopeName, types[i])
    ensures NamesSeen(types, i + 1, sm', known, scopeName)
  {
    forall name | name in sm'
      ensures name in known || Registered(types, i + 1, scopeName, name)
    {
      if name !in sm {
        assert scopeName(types[i]) == name;
      } else if name !in known {
        var j :| 0 <= j < i && types[j].Struct? && !types[j].isLiteral && !types[j].isOpaque &&
          scopeName(types[j]) == name;
      }
    }
  }

  lemma TypesDoneStep(types: seq<Type>, i: nat, sm: map<string, Type>, keys: set<Type>,
                      sm': map<string, Type>, keys': set<Type>, scopeName: Type -> string)
    requires i < |types| && (forall j :: 0 <= j < |types| ==> types[j].Struct?)
    requires TypesDone(types, i, sm, keys, scopeName)
    requires keys <= keys' && sm' == RunRegisters(sm, scopeName, types[i])
    requires !types[i].isOpaque ==>
      NoNestedOpaque(types[i].elems, |types[i].elems|) && AnalyzedIn(sm', keys', scopeName, types[i])
    ensures TypesDone(types, i + 1, sm', keys', scopeName)
  {
    forall j | 0 <= j < i && !types[j].isOpaque
      ensures AnalyzedIn(sm', keys', scopeName, types[j])
    {
      assert AnalyzedIn(sm, keys, scopeName, types[j]);
    }
  }

  lemma FirstsKeptStep(types: seq<Type>, i: nat, sm: map<string, Type>, sm': map<string, Type>,
                       known: map<string, Type>, scopeName: Type -> string)
    requires i < |types| && types[i].Struct?
    requires NamesSeen(types, i, sm, known, scopeName) && FirstsKept(types, i, sm, known, scopeName)
    requires sm' == RunRegisters(sm, scopeName, types[i])
    ensures FirstsKept(types, i + 1, sm', known, scopeName)
  {
    forall j | 0 <= j < i + 1 && FirstOfScope(types, j, known.Keys, scopeName)
      ensures scopeName(types[j]) in sm' && sm'[scopeName(types[j])] == types[j]
    {
      if j < i {
        assert FirstOfScope(types, j, known.Keys, scopeName);
      }
    }
  }

  /** A failing pass of run's loop keeps the known names. */
  lemma RunStepFails(types: seq<Type>, i: nat, sm: map<string, Type>, keys: set<Type>, sm': map<string, Type>,
                     known: map<string, Type>, scopeName: Type -> string)
    requires RunDone(types, i, sm, keys, known, scopeName) == true && i < |types|
    requires sm' == RunRegisters(sm, scopeName, types[i])
    ensures forall name :: name in known ==> name in sm' && sm'[name] == known[name]
  {
  }

  /** The container back-edges of the analyzed records (containee key to
      (container, offset) pairs), the scope-name map and a bound on the
      height of every key: the graph getContainer walks. */
  datatype ContainerGraph = ContainerGraph(
    containers: map<Type, set<(Type, nat)>>,
    structMap: map<string, Type>,
    scopeName: Type -> string,
    height: nat)
  {
    /** Containers are defined structs taller than the containee, every
        representative is analyzed and no key is taller than height. */
    ghost predicate Valid() {
      ScopeConsistent(scopeName) &&
      (forall k :: k in containers ==> Height(k) <= height) &&
      (forall k, p {:trigger p in containers[k]} :: k in containers && p in containers[k] ==>
        p.0.Struct? && !p.0.isOpaque && Height(p.0) > Height(k)) &&
      (forall name :: name in structMap ==>
        structMap[name] in containers && structMap[name].Struct? && !structMap[name].isLiteral &&
        !structMap[name].isOpaque && scopeName(structMap[name]) == name)
    }

    /** How far the representative of a scope name sits below height. */
    ghost function Rank(stid: string): nat
      requires Valid()
    {
      if stid in structMap then height + 1 - Height(structMap[stid]) else 0
    }

    /** The names getContainer reports for a scope name: the names of the
        named containers of its record, where an anonymous container is
        replaced by what its own scope name reports. */
    ghost function Above(stid: string): set<string>
      requires Valid()
      decreases Rank(stid), 2, 0
    {
      if stid !in structMap then {}
      else
        var k := structMap[stid];
        Collect(k, containers[k])
    }

    /** What the pairs s of the record of k contribute to Above: the union
        of Via over s. */
    ghost function Collect(k: Type, s: set<(Type, nat)>): set<string>
      requires Valid() && k in containers && s <= containers[k]
      decreases height + 1 - Height(k), 1, |s|
    {
      if s == {} then {}
      else
        var p :| p in s;
        Via(k, p) + Collect(k, s - {p})
    }

    /** What one container pair of the record of k contributes to Above. */
    ghost function Via(k: Type, p: (Type, nat)): set<string>
      requires Valid() && k in containers && p in containers[k]
      decreases height + 1 - Height(k), 0, 0
    {
      if p.0.isLiteral then {}
      else if IsAnonName(p.0.name) then
        RankBelow(k, p);
        Above(scopeName(p.0))
      else {p.0.name}
    }

    /** An anonymous container's scope name ranks strictly below its containee. */
    lemma RankBelow(k: Type, p: (Type, nat))
      requires Valid() && k in containers && p in containers[k] && !p.0.isLiteral
      ensures Height(k) <= height
      ensures Rank(scopeName(p.0)) < height + 1 - Height(k)
    {
      if scopeName(p.0) in structMap {
        var rep := structMap[scopeName(p.0)];
        assert ScopeOf(scopeName, rep) == ScopeOf(scopeName, p.0);
      }
    }

    /** Collect does not depend on the order in which it visits s. */
    lemma {:induction false} CollectPick(k: Type, s: set<(Type, nat)>, p: (Type, nat))
      requires Valid() && k in containers && s <= containers[k] && p in s
      decreases |s|
      ensures Collect(k, s) == Via(k, p) + Collect(k, s - {p})
    {
      var q :| q in s && Collect(k, s) == Via(k, q) + Collect(k, s - {q});
      if q != p {
        CollectPick(k, s - {q}, p);
        CollectPick(k, s - {p}, q);
        assert s - {q} - {p} == s - {p} - {q};
      }
    }

    /** Taking one pair out of s moves its contribution into acc. */
    lemma CollectTake(k: Type, s: set<(Type, nat)>, p: (Type, nat), acc: set<string>)
      requires Valid() && k in containers && s <= containers[k] && p in s
      ensures (acc + Via(k, p)) + Collect(k, s - {p}) == acc + Collect(k, s)
    {
      CollectPick(k, s, p);
    }

    /** A name Collect reports comes from one of the pairs. */
    lemma {:induction false} CollectHas(k: Type, s: set<(Type, nat)>, n: string)
      requires Valid() && k in containers && s <= containers[k] && n in Collect(k, s)
      decreases |s|
      ensures exists p :: p in s && n in Via(k, p)
    {
      var q :| q in s;
      CollectPick(k, s, q);
      if n !in Via(k, q) {
        CollectHas(k, s - {q}, n);
      }
    }

    /** Every name Above reports names a named, non-anonymous container
        recorded on some record, taller than the representative of stid. */
    lemma {:induction false} AboveNamed(stid: string, n: string)
      requires Valid() && n in Above(stid)
      decreases Rank(stid)
      ensures stid in structMap && !IsAnonName(n)
      ensures exists k, p {:trigger p in containers[k]} ::
        k in containers && p in containers[k] &&
        !p.0.isLiteral && p.0.name == n && Height(p.0) > Height(structMap[stid])
    {
      var k := structMap[stid];
      CollectHas(k, containers[k], n);
      var p :| p in containers[k] && n in Via(k, p);
      if IsAnonName(p.0.name) {
        RankBelow(k, p);
        AboveNamed(scopeName(p.0), n);
        var rep := structMap[scopeName(p.0)];
        assert ScopeOf(scopeName, rep) == ScopeOf(scopeName, p.0);
      }
    }
  }

  class StructAnalyzer {
    var structInfoMap: map<Type, StructInfo>
    var structMap: map<string, Type>
    const dl: DataLayout
    const scopeName: Type -> string
    /** StructInfo's static largest-struct record: the struct with the most
        flattened fields seen so far, and that count. */
    var maxStruct: Option<Type>
    var maxStructSize: nat
    /** Upper bound on the height of every analyzed type (termination of getContainer). */
    ghost var maxHeight: nat

    constructor (dl: DataLayout, scopeName: Type -> string)
      requires ScopeConsistent(scopeName)
      ensures Valid(None)
      ensures structInfoMap == map[] && structMap == map[]
      ensures maxStruct == None && maxStructSize == 0
      ensures this.dl == dl && this.scopeName == scopeName
    {
      this.dl := dl;
      this.scopeName := scopeName;
      maxStruct := None;
      maxStructSize := 0;
      structInfoMap := map[];
      structMap := map[];
      maxHeight := 0;
    }

    function Resolve(t: Type): Type
      reads this`structMap
    {
      ResolveIn(structMap, scopeName, t)
    }

    ghost function Infos(): set<StructInfo>
      reads this
    {
      structInfoMap.Values
    }

    // ------------------------------------------------------------ invariant

    /** The record registered under k. */
    ghost function RecordOf(k: Type): StructInfo
      reads this`structInfoMap
      requires k in structInfoMap
    {
      RecordIn(structInfoMap, k)
    }

    /** The key of the record of member i of k, arrays stripped. */
    ghost function NestedKey(k: Type, i: nat): Type
      reads this`structMap
      requires k.Struct? && i < |k.elems|
    {
      Resolve(StripArrays(k.elems[i]))
    }

    lemma {:induction false} NestedKeysHave(k: Type, n: nat, j: nat)
      requires k.Struct? && j < n <= |k.elems| && StripArrays(k.elems[j]).Struct?
      decreases n
      ensures NestedKey(k, j) in NestedKeysIn(structMap, scopeName, k, n)
    {
      if j < n - 1 {
        NestedKeysHave(k, n - 1, j);
      }
    }


    /** Every registered representative is a named, defined struct carrying
        the scope name it is registered under. */
    ghost predicate RepsOk()
      reads this`structMap
    {
      forall name :: name in structMap ==>
        structMap[name].Struct? && !structMap[name].isLiteral && !structMap[name].isOpaque &&
        scopeName(structMap[name]) == name
    }

    /** Every analyzed type is a defined struct with no opaque struct inside. */
    ghost predicate KeysOk()
      reads this
    {
      KeysIn(structInfoMap, maxHeight)
    }

    /** The largest-struct count covers every analyzed type. */
    ghost predicate SizesOk()
      reads this
    {
      SizesIn(structInfoMap, maxStructSize)
    }

    /** Every record is registered under the type it describes. */
    ghost predicate TypesOk()
      reads this, Infos()`stType
    {
      TypesIn(structInfoMap)
    }

    /** Every record is the finalized flattening of its key. */
    ghost predicate ContentsOk()
      reads this, Infos()`fieldSize, Infos()`arrayFlags, Infos()`pointerFlags, Infos()`unionFlags,
        Infos()`offsetMap, Infos()`fieldOffset, Infos()`fieldRealSize, Infos()`elementType,
        Infos()`stType, Infos()`allocSize, Infos()`finalized
    {
      ContentsIn(structInfoMap, dl)
    }

    /** Containers are defined structs strictly taller than the containee. */
    ghost predicate ContainersOk()
      reads this, Infos()`containers
    {
      ContainersIn(structInfoMap)
    }

    /** Every nested struct of an analyzed type resolves to an analyzed type,
        except possibly to `x`, a type registered but not yet analyzed. */
    ghost predicate NestedOk(x: Option<Type>)
      reads this
    {
      NestedIn(structInfoMap, x)
    }

    ghost predicate NestedIn(m: map<Type, StructInfo>, x: Option<Type>)
      reads this`structMap
    {
      (forall k, i {:trigger NestedKey(k, i), m[k]} ::
        (k in m && k.Struct? && 0 <= i < |k.elems| && StripArrays(k.elems[i]).Struct?) ==>
        NestedKey(k, i) in m || Some(NestedKey(k, i)) == x) &&
      (forall name :: name in structMap ==> structMap[name] in m || Some(structMap[name]) == x)
    }

    /** The part of the invariant the container walk relies on; it does not
        read the containers. */
    ghost predicate StructureOk(x: Option<Type>)
      reads this, Infos()`stType
    {
      ScopeConsistent(scopeName) && RepsOk() && KeysOk() && TypesOk() && NestedOk(x)
    }

    /** The invariant without the containers, which the container walk
        changes and nothing else reads. */
    ghost predicate Settled(x: Option<Type>)
      reads this, Infos()`fieldSize, Infos()`arrayFlags, Infos()`pointerFlags, Infos()`unionFlags,
        Infos()`offsetMap, Infos()`fieldOffset, Infos()`fieldRealSize, Infos()`elementType,
        Infos()`stType, Infos()`allocSize, Infos()`finalized
    {
      StructureOk(x) && SizesOk() && ContentsOk()
    }

    ghost predicate Valid(x: Option<Type>)
      reads this, Infos()
    {
      var ok := Settled(x) && ContainersOk(); ok
    }

    /** A defined struct and its representative declare the same members. */
    lemma ResolveSameElems(t: Type)
      requires ScopeConsistent(scopeName) && RepsOk()
      requires t.Struct? && !t.isOpaque
      ensures Resolve(t).Struct? && !Resolve(t).isOpaque
      ensures Resolve(t).elems == t.elems && Height(Resolve(t)) == Height(t)
    {
      if !t.isLiteral && scopeName(t) in structMap {
        var v := structMap[scopeName(t)];
        assert ScopeOf(scopeName, v) == ScopeOf(scopeName, t);
      }
    }

    // ------------------------------------------------------------ queries

    /** The record of `st`, looked up by type and then by scope name; none
        when neither has one. */
    function GetStructInfo(st: Type): (r: Option<StructInfo>)
      reads this
      ensures r.None? <==> st !in structInfoMap && Resolve(st) !in structInfoMap
      ensures r.Some? ==> r.value == structInfoMap[InfoKeyIn(structInfoMap.Keys, structMap, scopeName, st).value]
    {
      var key := InfoKeyIn(structInfoMap.Keys, structMap, scopeName, st);
      if key.Some? then Some(structInfoMap[key.value]) else None
    }

    /** The record getStructInfo returns describes its key's flattening; for
        a defined struct that key declares the same members. */
    lemma GetStructInfoContent(st: Type)
      requires Valid(None)
      requires GetStructInfo(st).Some?
      ensures var key := InfoKeyIn(structInfoMap.Keys, structMap, scopeName, st).value;
        GetStructInfo(st).value.ContentIs(dl, key) &&
        (st.Struct? && !st.isOpaque ==> key.elems == st.elems)
    {
      var key := InfoKeyIn(structInfoMap.Keys, structMap, scopeName, st).value;
      assert RecordOf(key).ContentIs(dl, key);
      if st.Struct? && !st.isOpaque && st !in structInfoMap {
        ResolveSameElems(st);
      }
    }

    // ------------------------------------------------------------ containers

    /** Every nested struct of an analyzed type resolves to a lower type that
        is analyzed or is x: what the container walk relies on. */
    ghost predicate NestedLower(x: Option<Type>)
      reads this
    {
      forall k, i {:trigger NestedKey(k, i)} ::
        (k in structInfoMap && k.Struct? && 0 <= i < |k.elems| && StripArrays(k.elems[i]).Struct?) ==>
        Height(NestedKey(k, i)) < Height(k) && (NestedKey(k, i) in structInfoMap || Some(NestedKey(k, i)) == x)
    }

    /** A member of an analyzed type that is a struct resolves to a type of
        the same height, lower than k's. */
    lemma NestedKeyLower(k: Type, i: nat, x: Option<Type>)
      requires StructureOk(x)
      requires k in structInfoMap && k.Struct? && i < |k.elems| && StripArrays(k.elems[i]).Struct?
      ensures Height(NestedKey(k, i)) < Height(k)
    {
      assert RecordOf(k) == structInfoMap[k];
      NoNestedOpaqueAt(k.elems, |k.elems|, i);
      ElemsHeightBound(k.elems, i);
      ResolveSameElems(StripArrays(k.elems[i]));
    }

    lemma StructureLower(x: Option<Type>)
      requires StructureOk(x)
      ensures NestedLower(x)
    {
      forall k, i | k in structInfoMap && k.Struct? && 0 <= i < |k.elems| && StripArrays(k.elems[i]).Struct?
        ensures Height(NestedKey(k, i)) < Height(k)
      {
        NestedKeyLower(k, i, x);
      }
    }

    /** The container back-edges of every record, with the scope-name map
        and the height bound: what getContainer walks. */
    ghost function Graph(): ContainerGraph
      reads this, Infos()`containers
    {
      ContainerGraph(map k | k in structInfoMap :: structInfoMap[k].containers, structMap, scopeName, maxHeight)
    }

    /** The invariant makes the walk well founded. */
    lemma GraphValid()
      requires StructureOk(None) && ContainersOk()
      ensures Graph().Valid()
    {
      var g := Graph();
      forall k | k in g.containers
        ensures Height(k) <= g.height
      {
        assert RecordOf(k) == structInfoMap[k];
      }
      forall k, p | k in g.containers && p in g.containers[k]
        ensures p.0.Struct? && !p.0.isOpaque && Height(p.0) > Height(k)
      {
        assert p in structInfoMap[k].containers;
      }
    }

    /** The analyzer's records hold the container pairs of g. */
    ghost predicate Holds(g: ContainerGraph)
      reads this, Infos()`containers
    {
      structMap == g.structMap && scopeName == g.scopeName && structInfoMap.Keys == g.containers.Keys &&
      forall k {:trigger structInfoMap[k]} :: k in structInfoMap ==> structInfoMap[k].containers == g.containers[k]
    }

    lemma HoldsGraph()
      ensures Holds(Graph())
    {
    }

    /** getContainer: adds to out the names g.Above reports for stid, and
        answers whether the record of stid has a named container at all. */
    method GetContainer(stid: string, out: set<string>, ghost g: ContainerGraph) returns (ret: bool, out': set<string>)
      requires g.Valid() && Holds(g)
      decreases g.Rank(stid), 1
      ensures Holds(g)
      ensures out' == out + g.Above(stid)
      ensures ret <==> (stid in g.structMap &&
        exists p :: p in g.containers[g.structMap[stid]] && !p.0.isLiteral)
    {
      ret := false;
      out' := out;
      if stid !in structMap {
        return;
      }
      var st := structMap[stid];
      var info := structInfoMap[st];
      var items := info.containers;
      ghost var all := items;
      while items != {}
        invariant items <= all && all == g.containers[st]
        invariant out' + g.Collect(st, items) == out + g.Collect(st, all)
        invariant ret <==> exists p :: p in all && p !in items && !p.0.isLiteral
        decreases |items|
      {
        var p :| p in items;
        ghost var before := out';
        var r;
        r, out' := VisitContainer(st, p, out', g);
        g.CollectTake(st, items, p, before);
        ret := ret || r;
        items := items - {p};
      }
    }

    /** One pass of getContainer's loop over the container pairs of the
        record of k: a literal container is skipped, an anonymous one is
        replaced by the containers of its scope name, any other adds its
        name. */
    method VisitContainer(k: Type, p: (Type, nat), out: set<string>, ghost g: ContainerGraph) returns (ret: bool, out': set<string>)
      requires g.Valid() && Holds(g)
      requires k in g.containers && p in g.containers[k]
      decreases g.height + 1 - Height(k), 0
      ensures Holds(g)
      ensures out' == out + g.Via(k, p)
      ensures ret <==> !p.0.isLiteral
    {
      ret := false;
      out' := out;
      if !p.0.isLiteral {
        if IsAnonName(p.0.name) {
          g.RankBelow(k, p);
          var sub;
          sub, out' := GetContainer(scopeName(p.0), out, g);
          ret := ret || sub;
        } else {
          out' := out + {p.0.name};
        }
        ret := true;
      }
    }

    /** The container pairs of every record, by key. */
    ghost function Containers(): map<Type, set<(Type, nat)>>
      reads this, Infos()
    {
      map k | k in structInfoMap :: structInfoMap[k].containers
    }

    /** Between two states, records only gained containers, and every new
        pair has `container` as its container. */
    twostate predicate GrewBy(container: Type)
      reads this, Infos()
    {
      structInfoMap == old(structInfoMap) &&
      (forall k {:trigger structInfoMap[k]} :: k in structInfoMap ==>
        old(structInfoMap[k].containers) <= structInfoMap[k].containers &&
        (forall p {:trigger p in structInfoMap[k].containers} ::
          p in structInfoMap[k].containers && p !in old(structInfoMap[k].containers) ==> p.0 == container))
    }

    /** Records (container, offset) on the containee and, through every
        nested struct S of the containee, (container, o + offset) on S for
        each (containee, o) already recorded on S. */
    method AddContainer(container: Type, ghost ck: Type, containee: StructInfo, offset: nat, ghost x: Option<Type>)
      requires TypesOk() && NestedLower(x) && ContainersOk()
      requires ck in structInfoMap && structInfoMap[ck] == containee
      requires container.Struct? && !container.isOpaque && Height(container) > Height(ck)
      requires x.None? || Height(ck) < Height(x.value)
      modifies Infos()`containers
      decreases Height(ck), 3
      ensures ContainersOk()
      ensures GrewBy(container)
      ensures (container, offset) in containee.containers
      ensures ck.Struct? && PassedBelowIn(old(Containers()), Containers(), structMap, scopeName, ck, container, offset, |ck.elems|)
      ensures GrownIn(old(Containers()), Containers())
      ensures ReachedIn(old(Containers()), Containers(), structMap, scopeName, ck, container, offset)
    {
      ghost var before := Containers();
      assert RecordOf(ck) == containee;
      forall k | k in structInfoMap && structInfoMap[k] == containee
        ensures k == ck
      {
        assert RecordOf(k) == containee;
      }
      containee.containers := containee.containers + {(container, offset)};
      var ct := containee.stType.value;
      assert ct == ck;
      var i := 0;
      while i < |ct.elems|
        invariant 0 <= i <= |ct.elems|
        invariant ContainersOk()
        invariant GrewBy(container)
        invariant (container, offset) in containee.containers
        invariant GrownIn(before, Containers())
        invariant PassedBelowIn(before, Containers(), structMap, scopeName, ck, container, offset, i)
        invariant DeepBelowIn(before, Containers(), structMap, scopeName, ck, container, offset, i)
      {
        ghost var mid := Containers();
        PassMember(container, ct, i, offset, x);
        PassedBelowStep(before, mid, Containers(), structMap, scopeName, ck, container, offset, i);
        DeepBelowStep(before, mid, Containers(), structMap, scopeName, ck, container, offset, i);
        i := i + 1;
      }
      ReachedFromMembers(before, Containers(), structMap, scopeName, ck, container, offset);
    }

    /** One pass of addContainer's loop over the members of ck: when member
        i is a struct, its record passes the container on. */
    method PassMember(container: Type, ck: Type, i: nat, offset: nat, ghost x: Option<Type>)
      requires TypesOk() && NestedLower(x) && ContainersOk()
      requires ck in structInfoMap && ck.Struct? && i < |ck.elems|
      requires container.Struct? && !container.isOpaque && Height(container) > Height(ck)
      requires x.None? || Height(ck) < Height(x.value)
      modifies Infos()`containers
      decreases Height(ck), 2
      ensures ContainersOk()
      ensures GrewBy(container)
      ensures GrownIn(old(Containers()), Containers())
      ensures var key := NestedKey(ck, i);
        StripArrays(ck.elems[i]).Struct? ==>
        key in old(Containers()) && PassedOn(old(Containers())[key], ck, container, offset, Containers()[key]) &&
        DeepOn(old(Containers())[key], old(Containers()), Containers(), structMap, scopeName, ck, key, container, offset)
    {
      var subType := StripArrays(ck.elems[i]);
      if subType.Struct? {
        var st := subType;
        if !st.isLiteral && scopeName(st) in structMap {
          st := structMap[scopeName(st)];
        }
        assert st == NestedKey(ck, i);
        AddContainerBelow(container, ck, st, offset, x);
      }
    }

    /** The loop of addContainer over the containers of one nested record:
        every (ck, o) there passes the container on with offset o + offset. */
    method AddContainerBelow(container: Type, ck: Type, st: Type, offset: nat, ghost x: Option<Type>)
      requires TypesOk() && NestedLower(x) && ContainersOk()
      requires ck in structInfoMap && st in structInfoMap && Height(st) < Height(ck)
      requires container.Struct? && !container.isOpaque && Height(container) > Height(ck)
      requires x.None? || Height(ck) < Height(x.value)
      modifies Infos()`containers
      decreases Height(ck), 1
      ensures ContainersOk()
      ensures GrewBy(container)
      ensures PassedOn(old(structInfoMap[st].containers), ck, container, offset, structInfoMap[st].containers)
      ensures GrownIn(old(Containers()), Containers())
      ensures DeepOn(old(structInfoMap[st].containers), old(Containers()), Containers(), structMap, scopeName, ck, st, container, offset)
    {
      var subInfo := structInfoMap[st];
      var items: set<(Type, nat)> := subInfo.containers;
      ghost var seen: set<(Type, nat)> := {};
      ghost var b0 := Containers();
      while items != {}
        invariant old(subInfo.containers) <= items + seen
        invariant ContainersOk()
        invariant GrewBy(container)
        invariant PassedOn(seen, ck, container, offset, subInfo.containers)
        invariant GrownIn(b0, Containers())
        invariant DeepOn(seen, b0, Containers(), structMap, scopeName, ck, st, container, offset)
        decreases |items|
      {
        var item :| item in items;
        ghost var before := subInfo.containers;
        ghost var mid := Containers();
        PassOn(container, ck, st, subInfo, item, offset, x);
        PassedOnStep(seen, item, ck, container, offset, before, subInfo.containers);
        DeepOnStep(seen, item, b0, mid, Containers(), structMap, scopeName, ck, st, container, offset);
        items := items - {item};
        seen := seen + {item};
      }
      PassedOnMono(old(subInfo.containers), seen, ck, container, offset, subInfo.containers);
      DeepOnWeaken(old(subInfo.containers), seen, b0, b0, Containers(), Containers(), structMap, scopeName, ck, st, container, offset);
    }

    /** One step of that loop: a recorded (ck, o) on the record of st passes
        the container on to it with offset o + offset. */
    method PassOn(container: Type, ck: Type, st: Type, subInfo: StructInfo, item: (Type, nat), offset: nat, ghost x: Option<Type>)
      requires TypesOk() && NestedLower(x) && ContainersOk()
      requires ck in structInfoMap && st in structInfoMap && Height(st) < Height(ck)
      requires structInfoMap[st] == subInfo
      requires container.Struct? && !container.isOpaque && Height(container) > Height(ck)
      requires x.None? || Height(ck) < Height(x.value)
      modifies Infos()`containers
      decreases Height(ck), 0
      ensures ContainersOk()
      ensures GrewBy(container)
      ensures old(subInfo.containers) <= subInfo.containers
      ensures item.0 == ck ==> (container, item.1 + offset) in subInfo.containers
      ensures GrownIn(old(Containers()), Containers())
      ensures item.0 == ck ==> ReachedIn(old(Containers()), Containers(), structMap, scopeName, st, container, item.1 + offset)
    {
      if item.0 == ck {
        AddContainer(container, st, subInfo, item.1 + offset, x);
      }
    }

    // ------------------------------------------------------------ building

    /** Between two states: the scope-name map is unchanged, every record
        is kept, and every new record is fresh and keyed by a type lower
        than `bound`. */
    twostate predicate Grows(bound: nat)
      reads this
    {
      structMap == old(structMap) &&
      old(structInfoMap).Keys <= structInfoMap.Keys &&
      AllLower(structInfoMap.Keys - old(structInfoMap).Keys, bound) &&
      (forall v :: v in Infos() && v !in old(Infos()) ==> fresh(v))
    }

    /** computeStructInfo: the record of st's representative, built on first
        use. */
    method ComputeStructInfo(st: Type, ghost x: Option<Type>) returns (res: Result<StructInfo>)
      requires Valid(x)
      requires st.Struct? && !st.isOpaque
      requires x.None? || Height(st) < Height(x.value)
      modifies this`structInfoMap, this`maxHeight, this`maxStruct, this`maxStructSize, Infos()
      decreases Height(st), 6
      ensures Grows(Height(st) + 1)
      ensures res.Ok? <==> NoNestedOpaque(st.elems, |st.elems|) == true
      ensures res.Ok? ==> Valid(x) && Resolve(st) in structInfoMap && res.value == structInfoMap[Resolve(st)]
    {
      var rep := st;
      if !st.isLiteral && scopeName(st) in structMap {
        rep := structMap[scopeName(st)];
      }
      ResolveSameElems(st);
      if rep in structInfoMap {
        assert RecordOf(rep) == structInfoMap[rep];
        res := Ok(structInfoMap[rep]);
      } else {
        res := AddStructInfo(rep, x);
      }
    }

    /** addStructInfo: flattens st member by member into a new record and
        registers it; a nested opaque struct stops the run. */
    method AddStructInfo(st: Type, ghost x: Option<Type>) returns (res: Result<StructInfo>)
      requires Valid(x)
      requires st.Struct? && !st.isOpaque
      requires x.None? || x == Some(st) || Height(st) < Height(x.value)
      modifies this`structInfoMap, this`maxHeight, this`maxStruct, this`maxStructSize, Infos()
      decreases Height(st), 5
      ensures Grows(Height(st) + 1)
      ensures res.Ok? <==> NoNestedOpaque(st.elems, |st.elems|) == true
      ensures res.Ok? ==> (Valid(if x == Some(st) then None else x) &&
        st in structInfoMap && res.value == structInfoMap[st])
    {
      if st in structInfoMap {
        assert RecordOf(st) == structInfoMap[st];
        ValidDone(st, x);
        return Ok(structInfoMap[st]);
      }
      res := AddNewStructInfo(st, x);
    }

    /** The part of addStructInfo after the lookup: st has no record yet. */
    method AddNewStructInfo(st: Type, ghost x: Option<Type>) returns (res: Result<StructInfo>)
      requires Valid(x)
      requires st.Struct? && !st.isOpaque && st !in structInfoMap
      requires x.None? || x == Some(st) || Height(st) < Height(x.value)
      modifies this`structInfoMap, this`maxHeight, this`maxStruct, this`maxStructSize, Infos()
      decreases Height(st), 4
      ensures Grows(Height(st) + 1)
      ensures res.Ok? <==> NoNestedOpaque(st.elems, |st.elems|) == true
      ensures res.Ok? ==> (Valid(if x == Some(st) then None else x) &&
        st in structInfoMap && res.value == structInfoMap[st])
    {
      var stInfo := NewRecord(st);
      var r := AddMembers(st, stInfo, x);
      if r.Err? {
        return Err(r.fault);
      }
      Register(st, stInfo, r.value, x);
      res := Ok(stInfo);
    }

    /** run: every struct type the module uses is analyzed, a literal one
        directly and a named one only if it is the first defined struct
        with its scope name; opaque named structs are skipped. */
    method Run(types: seq<Type>) returns (res: Result<()>)
      requires Valid(None)
      requires forall i :: 0 <= i < |types| ==> types[i].Struct? && (types[i].isLiteral ==> !types[i].isOpaque)
      modifies this`structMap, this`structInfoMap, this`maxHeight, this`maxStruct, this`maxStructSize, Infos()
      ensures res.Ok? <==> forall i :: 0 <= i < |types| && !types[i].isOpaque ==>
        NoNestedOpaque(types[i].elems, |types[i].elems|) == true
      ensures res.Ok? ==> Valid(None)
      ensures res.Ok? ==> forall i :: 0 <= i < |types| && !types[i].isOpaque ==> GetStructInfo(types[i]).Some?
      ensures res.Ok? ==> forall i :: 0 <= i < |types| && FirstOfScope(types, i, old(structMap).Keys, scopeName) ==>
        scopeName(types[i]) in structMap && structMap[scopeName(types[i])] == types[i]
      ensures forall name :: name in old(structMap) ==> name in structMap && structMap[name] == old(structMap)[name]
    {
      var i := 0;
      RunDoneStart(types, structMap, structInfoMap.Keys, scopeName);
      while i < |types|
        invariant 0 <= i <= |types|
        invariant Valid(None)
        invariant forall v :: v in Infos() ==> v in old(Infos()) || fresh(v)
        invariant RunDone(types, i, structMap, structInfoMap.Keys, old(structMap), scopeName) == true
      {
        ghost var sm, keys := structMap, structInfoMap.Keys;
        var r := RunStep(types[i]);
        if r.Err? {
          RunStepFails(types, i, sm, keys, structMap, old(structMap), scopeName);
          return Err(r.fault);
        }
        RunDoneStep(types, i, sm, keys, structMap, structInfoMap.Keys, old(structMap), scopeName);
        i := i + 1;
      }
      res := Ok(());
      RunFound(types);
    }

    /** A struct run analyzed is one getStructInfo finds. */
    lemma RunFound(types: seq<Type>)
      requires forall i :: 0 <= i < |types| ==> types[i].Struct?
      requires forall i :: 0 <= i < |types| && !types[i].isOpaque ==>
        AnalyzedIn(structMap, structInfoMap.Keys, scopeName, types[i])
      ensures forall i :: 0 <= i < |types| && !types[i].isOpaque ==> GetStructInfo(types[i]).Some?
    {
      forall i | 0 <= i < |types| && !types[i].isOpaque
        ensures GetStructInfo(types[i]).Some?
      {
        assert AnalyzedIn(structMap, structInfoMap.Keys, scopeName, types[i]);
      }
    }

    /** One pass of run's loop. */
    method RunStep(st: Type) returns (res: Result<()>)
      requires Valid(None)
      requires st.Struct? && (st.isLiteral ==> !st.isOpaque)
      modifies this`structMap, this`structInfoMap, this`maxHeight, this`maxStruct, this`maxStructSize, Infos()
      ensures res.Ok? <==> (st.isOpaque || NoNestedOpaque(st.elems, |st.elems|) == true)
      ensures res.Ok? ==> Valid(None) && (!st.isOpaque ==> AnalyzedIn(structMap, structInfoMap.Keys, scopeName, st))
      ensures old(structInfoMap).Keys <= structInfoMap.Keys
      ensures forall v :: v in Infos() ==> v in old(Infos()) || fresh(v)
      ensures structMap == RunRegisters(old(structMap), scopeName, st)
    {
      res := Ok(());
      if st.isLiteral {
        var r := AddStructInfo(st, None);
        if r.Err? {
          res := Err(r.fault);
        }
      } else if !st.isOpaque {
        if scopeName(st) !in structMap {
          AddName(st);
          var r := AddStructInfo(st, Some(st));
          if r.Err? {
            res := Err(r.fault);
          }
        } else {
          ResolveSameElems(st);
          assert RecordOf(Resolve(st)) == structInfoMap[Resolve(st)];
        }
      }
    }

    /** Registers st as the representative of its scope name; st is then the
        one type the invariant waits on. */
    method AddName(st: Type)
      requires Valid(None)
      requires st.Struct? && !st.isLiteral && !st.isOpaque && scopeName(st) !in structMap
      modifies this`structMap
      ensures structMap == old(structMap)[scopeName(st) := st]
      ensures Valid(Some(st))
    {
      ghost var before := structMap;
      structMap := structMap[scopeName(st) := st];
      forall k, i | k in structInfoMap && k.Struct? && 0 <= i < |k.elems| && StripArrays(k.elems[i]).Struct?
        ensures NestedKey(k, i) in structInfoMap || NestedKey(k, i) == st
      {
        var s := StripArrays(k.elems[i]);
        if s.isLiteral || scopeName(s) != scopeName(st) {
          assert old(structInfoMap[k]) == structInfoMap[k];
          assert NestedKey(k, i) == old(NestedKey(k, i));
        }
      }
    }

    /** Once x is analyzed, the invariant no longer needs its exception. */
    lemma ValidDone(st: Type, x: Option<Type>)
      requires st in structInfoMap
      ensures Valid(x) ==> Valid(if x == Some(st) then None else x)
    {
    }

    /** addStructInfo's loop over the members of st, filling stInfo. */
    method AddMembers(st: Type, stInfo: StructInfo, ghost x: Option<Type>) returns (res: Result<nat>)
      requires Valid(x)
      requires st.Struct? && !st.isOpaque
      requires x.None? || x == Some(st) || Height(st) < Height(x.value)
      requires st !in structInfoMap && stInfo !in Infos()
      requires stInfo.Shape() == EmptyFlat && stInfo.elementType.Keys == {0}
      modifies this`structInfoMap, this`maxHeight, this`maxStruct, this`maxStructSize, Infos()
      modifies stInfo`fieldSize, stInfo`arrayFlags, stInfo`pointerFlags, stInfo`unionFlags,
        stInfo`offsetMap, stInfo`fieldOffset, stInfo`fieldRealSize, stInfo`elementType
      decreases Height(st), 3
      ensures Grows(Height(st))
      ensures res.Ok? <==> NoNestedOpaque(st.elems, |st.elems|) == true
      ensures res.Ok? ==> (Valid(x) && st !in structInfoMap && stInfo !in Infos() &&
        stInfo.Shape() == Build(dl, st.elems, |st.elems|) &&
        stInfo.elementType.Keys == ElementTypeKeys(st.elems, |st.elems|, true) &&
        res.value == ExpandedSize(st.elems) &&
        NestedKeysIn(structMap, scopeName, st, |st.elems|) <= structInfoMap.Keys)
    {
      var numField := 0;
      var i := 0;
      while i < |st.elems|
        invariant 0 <= i <= |st.elems|
        invariant Valid(x)
        invariant Grows(Height(st))
        invariant st !in structInfoMap && stInfo !in Infos()
        invariant stInfo.Shape() == Build(dl, st.elems, i)
        invariant stInfo.elementType.Keys == ElementTypeKeys(st.elems, i, true)
        invariant numField == ExpandedCount(st.elems, i)
        invariant NoNestedOpaque(st.elems, i) == true
        invariant NestedKeysIn(structMap, scopeName, st, i) <= structInfoMap.Keys
      {
        var r := AddMember(st, stInfo, i, numField, x);
        if r.Err? {
          if NoNestedOpaque(st.elems, |st.elems|) {
            NoNestedOpaquePrefix(st.elems, i + 1, |st.elems|);
          }
          return Err(r.fault);
        }
        numField := r.value;
        i := i + 1;
      }
      res := Ok(numField);
    }

    /** The end of addStructInfo: the record is finalized, the largest struct
        statistic updated and the record registered under st. */
    method Register(st: Type, stInfo: StructInfo, numField: nat, ghost x: Option<Type>)
      requires Valid(x)
      requires st.Struct? && !st.isOpaque && NoNestedOpaque(st.elems, |st.elems|) == true
      requires x.None? || x == Some(st) || Height(st) < Height(x.value)
      requires st !in structInfoMap && stInfo !in Infos()
      requires stInfo.Shape() == Build(dl, st.elems, |st.elems|)
      requires stInfo.elementType.Keys == ElementTypeKeys(st.elems, |st.elems|, true)
      requires stInfo.containers == {}
      requires numField == ExpandedSize(st.elems)
      requires NestedKeysIn(structMap, scopeName, st, |st.elems|) <= structInfoMap.Keys
      modifies this`structInfoMap, this`maxHeight, this`maxStruct, this`maxStructSize, stInfo`stType, stInfo`fieldSize, stInfo`allocSize,
        stInfo`finalized
      ensures Valid(if x == Some(st) then None else x)
      ensures structInfoMap == old(structInfoMap)[st := stInfo]
      ensures stInfo.ContentIs(dl, st)
    {
      FinalizeRecord(stInfo, dl, st);
      assert Valid(x) == old(Valid(x));
      Insert(st, stInfo, numField, x);
    }

    /** Records the flattened count in the statistics and registers the
        finished record under st. */
    method Insert(st: Type, stInfo: StructInfo, numField: nat, ghost x: Option<Type>)
      requires Valid(x)
      requires st.Struct? && !st.isOpaque && NoNestedOpaque(st.elems, |st.elems|) == true
      requires x.None? || x == Some(st) || Height(st) < Height(x.value)
      requires st !in structInfoMap && stInfo !in Infos()
      requires stInfo.ContentIs(dl, st) && stInfo.containers == {}
      requires numField == ExpandedSize(st.elems)
      requires NestedKeysIn(structMap, scopeName, st, |st.elems|) <= structInfoMap.Keys
      modifies this`structInfoMap, this`maxHeight, this`maxStruct, this`maxStructSize
      ensures Valid(if x == Some(st) then None else x)
      ensures structInfoMap == old(structInfoMap)[st := stInfo]
    {
      ghost var h := if Height(st) > maxHeight then Height(st) else maxHeight;
      ghost var bound := if numField > maxStructSize then numField else maxStructSize;
      InsertKeeps(st, stInfo, x, h, bound);
      Commit(st, stInfo, numField, if x == Some(st) then None else x, h, bound);
    }

    /** The state change of Insert, given the invariant of the new map. */
    method Commit(st: Type, stInfo: StructInfo, numField: nat, ghost y: Option<Type>, ghost h: nat, ghost bound: nat)
      requires ScopeConsistent(scopeName) && RepsOk()
      requires KeysIn(structInfoMap[st := stInfo], h) && SizesIn(structInfoMap[st := stInfo], bound)
      requires TypesIn(structInfoMap[st := stInfo]) && ContentsIn(structInfoMap[st := stInfo], dl)
      requires ContainersIn(structInfoMap[st := stInfo]) && NestedIn(structInfoMap[st := stInfo], y)
      requires bound == if numField > maxStructSize then numField else maxStructSize
      modifies this`structInfoMap, this`maxHeight, this`maxStruct, this`maxStructSize
      ensures Valid(y)
      ensures structInfoMap == old(structInfoMap)[st := stInfo]
    {
      UpdateMaxStruct(st, numField);
      structInfoMap := structInfoMap[st := stInfo];
      maxHeight := h;
    }

    /** Keeps the running maximum of the flattened field counts seen. */
    method UpdateMaxStruct(st: Type, structSize: nat)
      modifies this`maxStruct, this`maxStructSize
      ensures maxStructSize >= old(maxStructSize) && maxStructSize >= structSize
      ensures maxStructSize == old(maxStructSize) || maxStructSize == structSize
      ensures maxStruct == if structSize > old(maxStructSize) then Some(st) else old(maxStruct)
    {
      if structSize > maxStructSize {
        maxStruct := Some(st);
        maxStructSize := structSize;
      }
    }

    /** Each part of the invariant holds of the map with st registered. */
    lemma InsertKeeps(st: Type, stInfo: StructInfo, x: Option<Type>, h: nat, bound: nat)
      requires Valid(x)
      requires st.Struct? && !st.isOpaque && NoNestedOpaque(st.elems, |st.elems|) == true
      requires x.None? || x == Some(st) || Height(st) < Height(x.value)
      requires st !in structInfoMap && stInfo.ContentIs(dl, st) && stInfo.containers == {}
      requires NestedKeysIn(structMap, scopeName, st, |st.elems|) <= structInfoMap.Keys
      requires h >= maxHeight && h >= Height(st) && bound >= maxStructSize && bound >= ExpandedSize(st.elems)
      ensures KeysIn(structInfoMap[st := stInfo], h) && SizesIn(structInfoMap[st := stInfo], bound)
      ensures TypesIn(structInfoMap[st := stInfo]) && ContentsIn(structInfoMap[st := stInfo], dl)
      ensures ContainersIn(structInfoMap[st := stInfo])
      ensures NestedIn(structInfoMap[st := stInfo], if x == Some(st) then None else x)
    {
      KeysInsert(structInfoMap, maxHeight, st, stInfo, h);
      SizesInsert(structInfoMap, maxStructSize, st, stInfo, bound);
      TypesInsert(structInfoMap, st, stInfo);
      ContentsInsert(structInfoMap, dl, st, stInfo);
      ContainersInsert(structInfoMap, st, stInfo);
      NestedInsert(st, stInfo, x);
    }

    lemma NestedInsert(st: Type, info: StructInfo, x: Option<Type>)
      requires NestedOk(x) && st !in structInfoMap
      requires x.None? || x == Some(st) || Height(st) < Height(x.value)
      requires st.Struct?
      requires NestedKeysIn(structMap, scopeName, st, |st.elems|) <= structInfoMap.Keys
      ensures NestedIn(structInfoMap[st := info], if x == Some(st) then None else x)
    {
      forall j | 0 <= j < |st.elems| && StripArrays(st.elems[j]).Struct?
        ensures NestedKey(st, j) in structInfoMap
      {
        NestedKeysHave(st, |st.elems|, j);
      }
    }

    /** One pass of addStructInfo's loop: member i of st, at flattened
        position numField. */
    method AddMember(st: Type, stInfo: StructInfo, i: nat, numField: nat, ghost x: Option<Type>) returns (res: Result<nat>)
      requires Valid(x)
      requires st.Struct? && !st.isOpaque && i < |st.elems|
      requires x.None? || x == Some(st) || Height(st) < Height(x.value)
      requires st !in structInfoMap && stInfo !in Infos()
      requires stInfo.Shape() == Build(dl, st.elems, i)
      requires stInfo.elementType.Keys == ElementTypeKeys(st.elems, i, true)
      requires numField == ExpandedCount(st.elems, i)
      requires NoNestedOpaque(st.elems, i) == true
      requires NestedKeysIn(structMap, scopeName, st, i) <= structInfoMap.Keys
      modifies this`structInfoMap, this`maxHeight, this`maxStruct, this`maxStructSize, Infos()
      modifies stInfo`fieldSize, stInfo`arrayFlags, stInfo`pointerFlags, stInfo`unionFlags,
        stInfo`offsetMap, stInfo`fieldOffset, stInfo`fieldRealSize, stInfo`elementType
      decreases Height(st), 2
      ensures Grows(Height(st))
      ensures res.Ok? <==> NoNestedOpaque(st.elems, i + 1) == true
      ensures res.Ok? ==> (Valid(x) && stInfo !in Infos() &&
        stInfo.Shape() == Build(dl, st.elems, i + 1) &&
        stInfo.elementType.Keys == ElementTypeKeys(st.elems, i + 1, true) &&
        res.value == ExpandedCount(st.elems, i + 1) &&
        NestedKeysIn(structMap, scopeName, st, i + 1) <= structInfoMap.Keys)
    {
      var isArray := st.elems[i].Array?;
      var subType := StripArrays(st.elems[i]);
      var off := BeginMember(stInfo, dl, st.elems, i, numField);
      if subType.Struct? {
        res := AddNestedMember(st, stInfo, i, numField, off, x);
      } else {
        AppendLeaf(stInfo, dl, st.elems, i, isArray, subType.Ptr?);
        assert Valid(x) == old(Valid(x));
        res := Ok(numField + 1);
      }
    }

    /** The nested-struct branch of addStructInfo's loop: the member's record
        is computed, st is recorded as its container at the member's offset,
        and the member's table is spliced into st's. */
    method AddNestedMember(st: Type, stInfo: StructInfo, i: nat, numField: nat, off: nat, ghost x: Option<Type>)
      returns (res: Result<nat>)
      requires Valid(x)
      requires st.Struct? && !st.isOpaque && i < |st.elems| && StripArrays(st.elems[i]).Struct?
      requires x.None? || x == Some(st) || Height(st) < Height(x.value)
      requires st !in structInfoMap && stInfo !in Infos()
      requires stInfo.Shape() == Pushed(dl, st.elems, i) && numField == ExpandedCount(st.elems, i)
      requires stInfo.elementType.Keys == ElementTypeKeys(st.elems, i, true) + {numField}
      requires off == dl.elementOffset(st.elems, i)
      modifies this`structInfoMap, this`maxHeight, this`maxStruct, this`maxStructSize, Infos()
      modifies stInfo`fieldSize, stInfo`arrayFlags, stInfo`pointerFlags, stInfo`unionFlags,
        stInfo`offsetMap, stInfo`fieldOffset, stInfo`fieldRealSize, stInfo`elementType
      decreases Height(st), 1
      ensures Grows(Height(st))
      ensures res.Ok? <==> (!StripArrays(st.elems[i]).isOpaque &&
        NoNestedOpaque(StripArrays(st.elems[i]).elems, |StripArrays(st.elems[i]).elems|) == true)
      ensures res.Ok? ==> (Valid(x) && stInfo !in Infos() &&
        stInfo.Shape() == Build(dl, st.elems, i + 1) &&
        stInfo.elementType.Keys == ElementTypeKeys(st.elems, i + 1, true) &&
        res.value == ExpandedCount(st.elems, i + 1) &&
        NestedKey(st, i) in structInfoMap)
    {
      var subType := StripArrays(st.elems[i]);
      if subType.isOpaque {
        return Err(NestedOpaqueStruct);
      }
      var r := NestedRecord(st, i, off, x);
      if r.Err? {
        return Err(r.fault);
      }
      var subInfo := r.value;
      ResolveSameElems(subType);
      assert subInfo == RecordOf(NestedKey(st, i));
      var added := SpliceRecord(stInfo, subInfo, st.elems, i, numField, x);
      res := Ok(numField + added);
    }

    /** computeStructInfo on member i of st followed by addContainer: the
        member's record, with st recorded as its container at offset off. */
    method NestedRecord(st: Type, i: nat, off: nat, ghost x: Option<Type>) returns (res: Result<StructInfo>)
      requires Valid(x)
      requires st.Struct? && !st.isOpaque && i < |st.elems|
      requires StripArrays(st.elems[i]).Struct? && !StripArrays(st.elems[i]).isOpaque
      requires x.None? || x == Some(st) || Height(st) < Height(x.value)
      modifies this`structInfoMap, this`maxHeight, this`maxStruct, this`maxStructSize, Infos()
      decreases Height(st), 0
      ensures Grows(Height(st))
      ensures res.Ok? <==> NoNestedOpaque(StripArrays(st.elems[i]).elems, |StripArrays(st.elems[i]).elems|) == true
      ensures res.Ok? ==> (Valid(x) && NestedKey(st, i) in structInfoMap &&
        res.value == structInfoMap[NestedKey(st, i)] && (st, off) in res.value.containers)
    {
      var subType := StripArrays(st.elems[i]);
      ElemsHeightBound(st.elems, i);
      var r := ComputeStructInfo(subType, x);
      if r.Err? {
        return Err(r.fault);
      }
      var subInfo := r.value;
      ghost var key := Resolve(subType);
      ResolveSameElems(subType);
      LinkContainer(st, key, subInfo, off, x);
      res := Ok(subInfo);
    }

    /** appendFields, appendFieldOffset and appendElementType on a record
        that is not registered: the analyzer's own state is left as it was. */
    method SpliceRecord(info: StructInfo, sub: StructInfo, elems: seq<Type>, i: nat, numField: nat, ghost x: Option<Type>)
      returns (added: nat)
      requires info !in Infos()
      requires i < |elems| && StripArrays(elems[i]).Struct?
      requires info != sub
      requires info.Shape() == Pushed(dl, elems, i) && numField == ExpandedCount(elems, i)
      requires info.elementType.Keys == ElementTypeKeys(elems, i, true) + {numField}
      requires sub.Shape() == Final(dl, StripArrays(elems[i]).elems)
      requires sub.elementType.Keys == ElementTypeKeys(StripArrays(elems[i]).elems, |StripArrays(elems[i]).elems|, true)
      modifies info`fieldSize, info`arrayFlags, info`pointerFlags, info`unionFlags, info`fieldRealSize,
        info`fieldOffset, info`elementType
      ensures Valid(x) == old(Valid(x))
      ensures info.Shape() == Build(dl, elems, i + 1)
      ensures info.elementType.Keys == ElementTypeKeys(elems, i + 1, true)
      ensures added == ExpandedSize(StripArrays(elems[i]).elems)
    {
      added := AppendNested(info, sub, dl, elems, i, numField);
    }

    /** addContainer on a valid analyzer keeps it valid. */
    method LinkContainer(container: Type, ghost ck: Type, containee: StructInfo, offset: nat, ghost x: Option<Type>)
      requires Valid(x)
      requires ck in structInfoMap && structInfoMap[ck] == containee
      requires container.Struct? && !container.isOpaque && Height(container) > Height(ck)
      requires x.None? || Height(ck) < Height(x.value)
      modifies Infos()`containers
      ensures Valid(x)
      ensures GrewBy(container)
      ensures (container, offset) in containee.containers
      ensures ReachedIn(old(Containers()), Containers(), structMap, scopeName, ck, container, offset)
    {
      StructureLower(x);
      AddContainer(container, ck, containee, offset, x);
      assert Settled(x) == old(Settled(x));
    }
  }

  // ------------------------------------------- steps of addStructInfo's loop

  /** The start of member i: its offset and offsetMap entry are pushed and
      its array-stripped type recorded at position numField. */
  method BeginMember(info: StructInfo, dl: DataLayout, elems: seq<Type>, i: nat, numField: nat) returns (off: nat)
    requires i < |elems|
    requires info.Shape() == Build(dl, elems, i) && numField == ExpandedCount(elems, i)
    modifies info`fieldOffset, info`offsetMap, info`elementType
    ensures off == dl.elementOffset(elems, i)
    ensures info.Shape() == Pushed(dl, elems, i)
    ensures info.elementType.Keys == old(info.elementType.Keys) + {numField}
    ensures info.elementType == old(info.elementType)[numField := Lookup(old(info.elementType), numField) + {StripArrays(elems[i])}]
  {
    off := dl.elementOffset(elems, i);
    info.AddFieldOffset(off);
    info.AddElementType(numField, StripArrays(elems[i]));
    info.AddOffsetMap(numField);
  }

  /** A scalar, pointer or array member: one field. */
  method AppendLeaf(info: StructInfo, dl: DataLayout, elems: seq<Type>, i: nat, isArray: bool, isPointer: bool)
    requires i < |elems| && !StripArrays(elems[i]).Struct?
    requires isArray == elems[i].Array? && isPointer == StripArrays(elems[i]).Ptr?
    requires info.Shape() == Pushed(dl, elems, i)
    modifies info`fieldSize, info`arrayFlags, info`pointerFlags, info`unionFlags
    ensures info.Shape() == Build(dl, elems, i + 1)
  {
    LeafStep(dl, elems, i);
    info.AddField(1, isArray, isPointer, false);
  }

  /** appendFields followed by appendFieldOffset: the finalized table of sub,
      spliced after the member offset that info pushed last. */
  method SpliceFields(info: StructInfo, sub: StructInfo)
    requires info != sub && |sub.fieldSize| > 0 && |info.fieldOffset| > 0
    modifies info`fieldSize, info`arrayFlags, info`pointerFlags, info`unionFlags, info`fieldRealSize,
      info`fieldOffset
    ensures info.Shape() ==
      Spliced(old(info.Shape()), sub.Shape(), old(info.fieldOffset[|info.fieldOffset| - 1]))
  {
    info.AppendFields(sub);
    info.AppendFieldOffset(sub);
  }

  /** A nested struct member: the nested record's fields and offsets are
      spliced in at position numField, then its element types are merged in,
      moved by the length fieldSize has after the splice. */
  method AppendNested(info: StructInfo, sub: StructInfo, dl: DataLayout, elems: seq<Type>, i: nat, numField: nat)
    returns (added: nat)
    requires i < |elems| && StripArrays(elems[i]).Struct?
    requires info != sub
    requires info.Shape() == Pushed(dl, elems, i) && numField == ExpandedCount(elems, i)
    requires info.elementType.Keys == ElementTypeKeys(elems, i, true) + {numField}
    requires sub.Shape() == Final(dl, StripArrays(elems[i]).elems)
    requires sub.elementType.Keys == ElementTypeKeys(StripArrays(elems[i]).elems, |StripArrays(elems[i]).elems|, true)
    modifies info`fieldSize, info`arrayFlags, info`pointerFlags, info`unionFlags, info`fieldRealSize,
      info`fieldOffset, info`elementType
    ensures info.Shape() == Build(dl, elems, i + 1)
    ensures info.elementType.Keys == ElementTypeKeys(elems, i + 1, true)
    ensures added == ExpandedSize(StripArrays(elems[i]).elems)
  {
    ghost var s := StripArrays(elems[i]);
    ghost var p := info.Shape();
    NestedStep(dl, elems, i);
    SpliceFields(info, sub);
    ElementTypeKeysSpliced(elems, i, info.elementType.Keys, sub.elementType.Keys, |info.fieldSize|);
    info.AppendElementType(sub);
    added := sub.GetExpandedSize();
  }

  /** A fresh record whose element-type map starts with st at position 0. */
  method NewRecord(st: Type) returns (info: StructInfo)
    ensures fresh(info)
    ensures info.Shape() == EmptyFlat && info.elementType.Keys == {0} && info.containers == {}
  {
    info := new StructInfo();
    info.AddElementType(0, st);
  }

  /** The end of addStructInfo for one record: the real type is set and the
      record finalized, which leaves it holding exactly the flattening of st. */
  method FinalizeRecord(info: StructInfo, dl: DataLayout, st: Type)
    requires st.Struct?
    requires info.Shape() == Build(dl, st.elems, |st.elems|)
    requires info.elementType.Keys == ElementTypeKeys(st.elems, |st.elems|, true)
    modifies info`stType, info`fieldSize, info`allocSize, info`finalized
    ensures info.ContentIs(dl, st)
  {
    info.stType := Some(st);
    info.Finalize(dl);
  }
}
