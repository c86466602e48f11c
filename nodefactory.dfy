// AndersNodeFactory: the arena of points-to graph nodes. Nodes live in one
// append-only vector and are named by their index; five sentinels sit at ids
// 0..4, the fields of an object take consecutive ids, maps find the node of a
// value, and a union-find over `mergeTarget` records merged nodes.
module NodeFactory {
  import opened Llvm
  import opened Flatten
  import opened StructAnalysis
  import opened OffsetResolver

  /** What offsetToFieldNum needs of the struct analysis: it is well formed
      and its records agree with the flattening. */
  ghost predicate Ready(sa: StructAnalyzer)
    reads sa, sa.structInfoMap.Values
  {
    Wf(ViewOf(sa)) && RecordsMatch(sa)
  }

  lemma AnalyzerReady(sa: StructAnalyzer)
    requires sa.Valid(None)
    ensures Ready(sa)
  {
    ViewWf(sa);
    ViewMatches(sa);
  }

  // ------------------------------------------------- value nodes of constants

  /** The value node of global g: a declared global stands for the
      definition of its name when there is one (the universal pointer when
      there is none). */
  function GlobalNodeIn(vals: map<Value, nat>, gobj: map<string, Global>, g: Global): nat {
    if g.isDecl then
      if g.name in gobj then IdOf(vals, Const(GlobalRef(gobj[g.name]))) else UniversalPtrIndex
    else IdOf(vals, Const(GlobalRef(g)))
  }

  /** The value node of constant c, read off the value map `vals`, the GEP
      memo `geps` (base node and field number to node) and the definitions
      `gobj`: a non-pointer gives the constant-int node; null and undef the
      null pointer; a GEP its base's node at field 0 and the memoized node of
      (base, field) otherwise, with a null or universal base object giving
      the null or universal pointer; a bitcast its source's node, with the
      null and universal objects mapped to their pointers. A GEP whose
      (base, field) is not memoized has a value node of its own already. */
  function ConstNodeIn(vals: map<Value, nat>, geps: map<(nat, nat), nat>, gobj: map<string, Global>,
                       a: Analysis, dl: DataLayout, up: Constant -> Type, c: Constant): Result<nat>
    requires Wf(a)
    decreases ConstDepth(c)
  {
    if !IsPointerConstant(c) then Ok(ConstantIntIndex)
    else match c
      case Null => Ok(NullPtrIndex)
      case Undef(_) => Ok(NullPtrIndex)
      case GlobalRef(g) => Ok(GlobalNodeIn(vals, gobj, g))
      case GEPExpr(_, base, _) =>
        var b := ConstNodeIn(vals, geps, gobj, a, dl, up, base);
        if b.Err? then b
        else if b.value == InvalidIndex then Err(MissingBaseNode)
        else if b.value == NullObjectIndex then Ok(NullPtrIndex)
        else if b.value == UniversalObjIndex then Ok(UniversalPtrIndex)
        else
          var f := FieldNum(a, dl, up(c), GEPOffset(dl, c.srcElemType, Const(base), c.indices));
          if f.Err? then Err(f.fault)
          else if f.value == 0 then b
          else if (b.value, f.value) in geps then Ok(geps[(b.value, f.value)])
          else Err(DuplicateValueNode)
      case BitCast(src, _) =>
        var n := ConstNodeIn(vals, geps, gobj, a, dl, up, src);
        if n == Ok(NullObjectIndex) then Ok(NullPtrIndex)
        else if n == Ok(UniversalObjIndex) then Ok(UniversalPtrIndex)
        else n
      case IntToPtr(_, _) => Ok(NullPtrIndex)
      case PtrToInt(_, _) => Ok(NullPtrIndex)
      case BlockAddr => Ok(NullPtrIndex)
      case OtherConst(_) => Err(UnhandledConstant)
  }

  /** A base node a constant GEP indexes into: found, and neither the null
      nor the universal object. */
  predicate IsGepBase(b: Result<nat>) {
    b.Ok? && b.value != InvalidIndex && b.value != NullObjectIndex && b.value != UniversalObjIndex
  }

  /** A node found for a constant stays its node while the value map gains
      only GEP constants and both maps keep their entries. */
  lemma {:induction false} ConstNodeGrow(vals: map<Value, nat>, geps: map<(nat, nat), nat>,
                                         vals': map<Value, nat>, geps': map<(nat, nat), nat>, gobj: map<string, Global>,
                                         a: Analysis, dl: DataLayout, up: Constant -> Type, c: Constant)
    requires Wf(a)
    requires forall v :: v in vals ==> v in vals' && vals'[v] == vals[v]
    requires forall v :: v in vals' && v !in vals ==> v.Const? && v.c.GEPExpr?
    requires forall k :: k in geps ==> k in geps' && geps'[k] == geps[k]
    requires ConstNodeIn(vals, geps, gobj, a, dl, up, c).Ok?
    decreases ConstDepth(c)
    ensures ConstNodeIn(vals', geps', gobj, a, dl, up, c) == ConstNodeIn(vals, geps, gobj, a, dl, up, c)
  {
    if IsPointerConstant(c) {
      match c
      case GlobalRef(g) =>
        assert GlobalNodeIn(vals', gobj, g) == GlobalNodeIn(vals, gobj, g);
      case GEPExpr(_, base, _) =>
        ConstNodeGrow(vals, geps, vals', geps', gobj, a, dl, up, base);
      case BitCast(src, _) =>
        ConstNodeGrow(vals, geps, vals', geps', gobj, a, dl, up, src);
      case _ =>
    }
  }

  // ---------------------------------------------------------------- nodes

  datatype NodeKind = ValueNode | ObjNode

  /** AndersNode: `value` is None for the null Value*; `offset` is the index of
      the field this node stands for within its object. */
  datatype AndersNode = AndersNode(
    kind: NodeKind,
    idx: nat,
    mergeTarget: nat,
    value: Option<Value>,
    offset: nat,
    isUnionObj: bool,
    isHeapNode: bool,
    storeFlag: int)

  /** AndersNode's constructor: a new node is its own merge target and has
      stored nothing. */
  function NewNode(kind: NodeKind, i: nat, v: Option<Value>, off: nat, uo: bool, heap: bool): (n: AndersNode)
    ensures n.idx == i && n.mergeTarget == i && n.storeFlag == 0
    ensures n.kind == kind && n.value == v && n.offset == off && n.isUnionObj == uo && n.isHeapNode == heap
  {
    AndersNode(kind, i, i, v, off, uo, heap, 0)
  }

  const UniversalPtrIndex: nat := 0
  const UniversalObjIndex: nat := 1
  const NullPtrIndex: nat := 2
  const NullObjectIndex: nat := 3
  const ConstantIntIndex: nat := 4

  /** The largest `unsigned` is reserved for "no node". */
  const InvalidIndex: nat := UINT_MAX

  function IdOf<K>(m: map<K, nat>, k: K): nat {
    if k in m then m[k] else InvalidIndex
  }

  // ------------------------------------------------------ arena invariants

  predicate NodeOk(nodes: seq<AndersNode>, i: nat)
    requires i < |nodes|
  {
    nodes[i].idx == i && nodes[i].mergeTarget < |nodes| && nodes[i].offset <= i &&
    ((nodes[i].isUnionObj || nodes[i].isHeapNode) ==> nodes[i].kind == ObjNode)
  }

  /** The sentinels keep their kinds, every node knows its own id, merge
      targets stay inside the arena, a field node's object starts inside it,
      and only object nodes carry the union and heap flags. */
  predicate ArenaOk(nodes: seq<AndersNode>) {
    |nodes| >= 5 &&
    nodes[UniversalPtrIndex].kind == ValueNode && nodes[UniversalObjIndex].kind == ObjNode &&
    nodes[NullPtrIndex].kind == ValueNode && nodes[NullObjectIndex].kind == ObjNode &&
    nodes[ConstantIntIndex].kind == ObjNode &&
    forall i :: 0 <= i < |nodes| ==> NodeOk(nodes, i)
  }

  predicate KindIs(nodes: seq<AndersNode>, i: nat, k: NodeKind) {
    i < |nodes| && nodes[i].kind == k
  }

  /** Every id the map holds names a node of kind `k`. */
  predicate MapsInto<K>(m: map<K, nat>, nodes: seq<AndersNode>, k: NodeKind) {
    forall x :: x in m ==> KindIs(nodes, m[x], k)
  }

  predicate LookupsOk(nodes: seq<AndersNode>, valueNodeMap: map<Value, nat>, objNodeMap: map<Value, nat>,
                      returnMap: map<Global, nat>, varargMap: map<Global, nat>, tainted: set<nat>)
  {
    MapsInto(valueNodeMap, nodes, ValueNode) && MapsInto(objNodeMap, nodes, ObjNode) &&
    MapsInto(returnMap, nodes, ValueNode) && MapsInto(varargMap, nodes, ObjNode) &&
    forall i :: i in tainted ==> KindIs(nodes, i, ObjNode)
  }

  /** gepMap's ids are value nodes that gepNodeMap maps back to their key. */
  predicate GepMapsOk(nodes: seq<AndersNode>, gepMap: map<(nat, nat), nat>, gepNodeMap: map<nat, (nat, nat)>) {
    MapsInto(gepMap, nodes, ValueNode) &&
    (forall key {:trigger gepMap[key]} :: key in gepMap ==> gepMap[key] in gepNodeMap && gepNodeMap[gepMap[key]] == key) &&
    (forall i :: i in gepNodeMap ==> KindIs(nodes, i, ValueNode))
  }

  /** Same arena length and the same kind at every id. */
  predicate SameKinds(a: seq<AndersNode>, b: seq<AndersNode>) {
    |a| == |b| && forall i :: 0 <= i < |a| ==> a[i].kind == b[i].kind
  }

  lemma SameKindsKeepLookups(a: seq<AndersNode>, b: seq<AndersNode>, valueNodeMap: map<Value, nat>, objNodeMap: map<Value, nat>,
                             returnMap: map<Global, nat>, varargMap: map<Global, nat>, tainted: set<nat>,
                             gepMap: map<(nat, nat), nat>, gepNodeMap: map<nat, (nat, nat)>)
    requires SameKinds(a, b)
    requires LookupsOk(a, valueNodeMap, objNodeMap, returnMap, varargMap, tainted) && GepMapsOk(a, gepMap, gepNodeMap)
    ensures LookupsOk(b, valueNodeMap, objNodeMap, returnMap, varargMap, tainted) && GepMapsOk(b, gepMap, gepNodeMap)
  {
  }

  /** Re-pointing one merge target inside the arena keeps the arena invariant. */
  lemma RetargetKeepsArena(nodes: seq<AndersNode>, p: nat, t: nat)
    requires ArenaOk(nodes) && p < |nodes| && t < |nodes|
    ensures ArenaOk(nodes[p := nodes[p].(mergeTarget := t)])
    ensures SameKinds(nodes, nodes[p := nodes[p].(mergeTarget := t)])
  {
    var next := nodes[p := nodes[p].(mergeTarget := t)];
    assert forall k :: 0 <= k < |next| ==> NodeOk(nodes, k) && next[k].kind == nodes[k].kind;
  }

  // ------------------------------------------------------------ union-find

  /** Node i, its merge target t, and the ghost bookkeeping: `root[i]` is the
      self-targeting node the chain from i ends in, and `rank` strictly
      increases along every link, which is what makes the chain end. */
  ghost predicate LinkOk(nodes: seq<AndersNode>, root: seq<nat>, rank: seq<nat>, i: nat)
    requires i < |nodes| == |root| == |rank|
  {
    var t := nodes[i].mergeTarget;
    t < |nodes| && root[i] < |nodes| &&
    nodes[root[i]].mergeTarget == root[i] && root[t] == root[i] &&
    (t == i ==> root[i] == i) &&
    (t != i ==> rank[t] > rank[i]) &&
    rank[root[i]] >= rank[i]
  }

  ghost predicate UnionFind(nodes: seq<AndersNode>, root: seq<nat>, rank: seq<nat>) {
    |root| == |nodes| && |rank| == |nodes| &&
    forall i :: 0 <= i < |nodes| ==> LinkOk(nodes, root, rank, i)
  }

  ghost predicate TargetsOk(nodes: seq<AndersNode>) {
    forall i :: 0 <= i < |nodes| ==> nodes[i].mergeTarget < |nodes|
  }

  /** The node reached from n after k steps along merge targets. */
  function Follow(nodes: seq<AndersNode>, n: nat, k: nat): (r: nat)
    requires TargetsOk(nodes) && n < |nodes|
    ensures r < |nodes|
    decreases k
  {
    if k == 0 then n else Follow(nodes, nodes[n].mergeTarget, k - 1)
  }

  lemma {:induction false} FollowSplit(nodes: seq<AndersNode>, n: nat, a: nat, b: nat)
    requires TargetsOk(nodes) && n < |nodes|
    ensures Follow(nodes, n, a + b) == Follow(nodes, Follow(nodes, n, a), b)
    decreases a
  {
    if a > 0 {
      FollowSplit(nodes, nodes[n].mergeTarget, a - 1, b);
    }
  }

  lemma {:induction false} FollowFromRoot(nodes: seq<AndersNode>, r: nat, k: nat)
    requires TargetsOk(nodes) && r < |nodes| && nodes[r].mergeTarget == r
    ensures Follow(nodes, r, k) == r
  {
    if k > 0 {
      FollowFromRoot(nodes, r, k - 1);
    }
  }

  /** Every node reached from n has n's root. */
  lemma {:induction false} FollowKeepsRoot(nodes: seq<AndersNode>, root: seq<nat>, rank: seq<nat>, n: nat, k: nat)
    requires UnionFind(nodes, root, rank) && n < |nodes|
    ensures TargetsOk(nodes)
    ensures root[Follow(nodes, n, k)] == root[n]
    decreases k
  {
    assert TargetsOk(nodes) by {
      forall i | 0 <= i < |nodes| ensures nodes[i].mergeTarget < |nodes| {
        assert LinkOk(nodes, root, rank, i);
      }
    }
    if k > 0 {
      assert LinkOk(nodes, root, rank, n);
      FollowKeepsRoot(nodes, root, rank, nodes[n].mergeTarget, k - 1);
    }
  }

  lemma AppendKeepsUnionFind(nodes: seq<AndersNode>, root: seq<nat>, rank: seq<nat>, n: AndersNode)
    requires UnionFind(nodes, root, rank) && n.mergeTarget == |nodes|
    ensures UnionFind(nodes + [n], root + [|nodes|], rank + [0])
  {
    var nodes', root', rank' := nodes + [n], root + [|nodes|], rank + [0];
    forall i | 0 <= i < |nodes'| ensures LinkOk(nodes', root', rank', i) {
      if i < |nodes| {
        assert LinkOk(nodes, root, rank, i);
      }
    }
  }

  /** mergeNode's effect on the ghost bookkeeping: n1's set joins n0's root,
      and n0's set is lifted above n1's rank. */
  lemma MergeKeepsUnionFind(nodes: seq<AndersNode>, root: seq<nat>, rank: seq<nat>, n0: nat, n1: nat)
    requires UnionFind(nodes, root, rank) && n0 < |nodes| && n1 < |nodes|
    requires nodes[n1].mergeTarget == n1 && root[n0] != n1
    ensures UnionFind(nodes[n1 := nodes[n1].(mergeTarget := n0)], MergedRoots(root, n0, n1), MergedRanks(root, rank, n0, n1))
  {
    var nodes' := nodes[n1 := nodes[n1].(mergeTarget := n0)];
    var root' := MergedRoots(root, n0, n1);
    var rank' := MergedRanks(root, rank, n0, n1);
    var r0 := root[n0];
    assert LinkOk(nodes, root, rank, n1);
    assert LinkOk(nodes, root, rank, n0);
    assert LinkOk(nodes, root, rank, r0);
    assert r0 != n1 && n0 != n1;
    forall i | 0 <= i < |nodes'| ensures LinkOk(nodes', root', rank', i) {
      assert LinkOk(nodes, root, rank, i);
      var t := nodes[i].mergeTarget;
      var ri := root[i];
      assert LinkOk(nodes, root, rank, t);
      assert LinkOk(nodes, root, rank, ri);
      var t' := nodes'[i].mergeTarget;
      assert t' == if i == n1 then n0 else t;
      assert root'[i] == if ri == n1 then r0 else ri;
      assert root'[t'] == if root[t'] == n1 then r0 else root[t'];
      assert rank'[i] == if ri == r0 then rank[i] + rank[n1] + 1 else rank[i];
      assert rank'[t'] == if root[t'] == r0 then rank[t'] + rank[n1] + 1 else rank[t'];
      assert rank'[r0] == rank[r0] + rank[n1] + 1;
      assert rank'[ri] == if ri == r0 then rank[ri] + rank[n1] + 1 else rank[ri];
    }
  }

  ghost function MergedRoots(root: seq<nat>, n0: nat, n1: nat): seq<nat>
    requires n0 < |root|
  {
    seq(|root|, i requires 0 <= i < |root| => if root[i] == n1 then root[n0] else root[i])
  }

  ghost function MergedRanks(root: seq<nat>, rank: seq<nat>, n0: nat, n1: nat): seq<nat>
    requires n0 < |root| && n1 < |rank| == |root|
  {
    seq(|rank|, i requires 0 <= i < |rank| => if root[i] == root[n0] then rank[i] + rank[n1] + 1 else rank[i])
  }

  /** Re-pointing a node of root r's set straight at r keeps the bookkeeping. */
  lemma CompressKeepsUnionFind(nodes: seq<AndersNode>, root: seq<nat>, rank: seq<nat>, p: nat)
    requires UnionFind(nodes, root, rank) && p < |nodes| && nodes[p].mergeTarget != p
    ensures UnionFind(nodes[p := nodes[p].(mergeTarget := root[p])], root, rank)
  {
    var nodes' := nodes[p := nodes[p].(mergeTarget := root[p])];
    assert LinkOk(nodes, root, rank, p);
    assert LinkOk(nodes, root, rank, nodes[p].mergeTarget);
    assert LinkOk(nodes, root, rank, root[p]);
    forall i | 0 <= i < |nodes'| ensures LinkOk(nodes', root, rank, i) {
      assert LinkOk(nodes, root, rank, i);
    }
  }

  /** `cur` is `orig` with some merge targets of ret's set pointed at ret. */
  ghost predicate Compressed(orig: seq<AndersNode>, cur: seq<AndersNode>, root: seq<nat>, ret: nat) {
    |cur| == |orig| && |root| == |orig| &&
    forall i :: 0 <= i < |cur| ==>
      cur[i] == orig[i].(mergeTarget := cur[i].mergeTarget) &&
      (cur[i].mergeTarget == orig[i].mergeTarget || (root[i] == ret && cur[i].mergeTarget == ret))
  }

  lemma CompressedKinds(orig: seq<AndersNode>, cur: seq<AndersNode>, root: seq<nat>, ret: nat)
    requires Compressed(orig, cur, root, ret)
    ensures SameKinds(orig, cur)
  {
  }

  lemma CompressStep(orig: seq<AndersNode>, cur: seq<AndersNode>, root: seq<nat>, rank: seq<nat>, p: nat, ret: nat)
    requires UnionFind(orig, root, rank) && UnionFind(cur, root, rank) && ArenaOk(cur)
    requires Compressed(orig, cur, root, ret)
    requires p < |cur| && orig[p].mergeTarget != p && root[p] == ret
    ensures UnionFind(cur[p := cur[p].(mergeTarget := ret)], root, rank)
    ensures ArenaOk(cur[p := cur[p].(mergeTarget := ret)])
    ensures Compressed(orig, cur[p := cur[p].(mergeTarget := ret)], root, ret)
  {
    assert LinkOk(orig, root, rank, p);
    assert LinkOk(cur, root, rank, p);
    CompressKeepsUnionFind(cur, root, rank, p);
    RetargetKeepsArena(cur, p, ret);
  }

  // --------------------------------------------------------- object runs

  /** The next node continues i's object: an object node one field further on. */
  predicate NextInRun(nodes: seq<AndersNode>, i: nat)
    requires i < |nodes|
  {
    i + 1 < |nodes| && nodes[i + 1].kind == ObjNode && nodes[i + 1].offset == nodes[i].offset + 1
  }

  /** The last node of the run of consecutive fields that starts at i. */
  function RunEnd(nodes: seq<AndersNode>, i: nat): (e: nat)
    requires i < |nodes|
    decreases |nodes| - i
    ensures i <= e < |nodes|
    ensures nodes[e].offset == nodes[i].offset + (e - i)
    ensures !NextInRun(nodes, e)
  {
    if NextInRun(nodes, i) then RunEnd(nodes, i + 1) else i
  }

  /** Nodes b .. b+size-1 are the fields 0 .. size-1 of one object, and the
      node after them (if any) does not continue it. */
  predicate ObjectRun(nodes: seq<AndersNode>, b: nat, size: nat) {
    0 < size && b + size <= |nodes| &&
    (forall k :: b <= k < b + size ==> nodes[k].kind == ObjNode && nodes[k].offset == k - b) &&
    (b + size == |nodes| || !(nodes[b + size].kind == ObjNode && nodes[b + size].offset == size))
  }

  /** Inside an object run, every field's run ends at the run's last node. */
  lemma {:induction false} RunEndOfObject(nodes: seq<AndersNode>, b: nat, size: nat, j: nat)
    requires ObjectRun(nodes, b, size) && j < size
    ensures RunEnd(nodes, b + j) == b + size - 1
    decreases size - j
  {
    if j + 1 < size {
      assert nodes[b + (j + 1)].offset == j + 1;
      assert NextInRun(nodes, b + j);
      RunEndOfObject(nodes, b, size, j + 1);
    } else {
      assert !NextInRun(nodes, b + j);
    }
  }

  // ------------------------------------------------------------ the factory

  class AndersNodeFactory {
    /** setStructAnalyzer, called once before the factory is used. */
    const structAnalyzer: StructAnalyzer
    /** GetUnderlyingObject, followed by the pointee type of its result: the
        type offsetToFieldNum descends for a constant GEP. */
    const underlyingPointee: Constant -> Type

    var dataLayout: DataLayout
    /** Name -> defining global variable, and name -> defining function. */
    var gobjMap: map<string, Global>
    var funcMap: map<string, Global>

    var nodes: seq<AndersNode>
    var taintedNodes: set<nat>
    var valueNodeMap: map<Value, nat>
    var objNodeMap: map<Value, nat>
    var returnMap: map<Global, nat>
    var varargMap: map<Global, nat>
    /** (base value node, field number) -> value node of a constant GEP, and back. */
    var gepMap: map<(nat, nat), nat>
    var gepNodeMap: map<nat, (nat, nat)>

    /** Union-find bookkeeping: the root of each node and a rank that grows
        along merge links. */
    ghost var root: seq<nat>
    ghost var rank: seq<nat>

    ghost predicate Valid()
      reads this
    {
      ArenaOk(nodes) &&
      LookupsOk(nodes, valueNodeMap, objNodeMap, returnMap, varargMap, taintedNodes) &&
      GepMapsOk(nodes, gepMap, gepNodeMap) &&
      UnionFind(nodes, root, rank)
    }

    /** The factory is made with the five sentinels: universal pointer,
        universal object, null pointer, null object, constant-int object.
        The setters the analysis calls before use are its parameters. */
    constructor (sa: StructAnalyzer, underlyingPointee: Constant -> Type, dl: DataLayout,
                 gobjMap: map<string, Global>, funcMap: map<string, Global>)
      ensures Valid()
      ensures |nodes| == 5
      ensures nodes[0].kind == ValueNode && nodes[1].kind == ObjNode && nodes[2].kind == ValueNode
      ensures nodes[3].kind == ObjNode && nodes[4].kind == ObjNode
      ensures forall i :: 0 <= i < 5 ==> nodes[i] == NewNode(nodes[i].kind, i, None, 0, false, false)
      ensures valueNodeMap == map[] && objNodeMap == map[] && returnMap == map[] && varargMap == map[]
      ensures gepMap == map[] && gepNodeMap == map[] && taintedNodes == {}
      ensures structAnalyzer == sa && this.underlyingPointee == underlyingPointee && dataLayout == dl
      ensures this.gobjMap == gobjMap && this.funcMap == funcMap
    {
      structAnalyzer := sa;
      this.underlyingPointee := underlyingPointee;
      dataLayout := dl;
      this.gobjMap := gobjMap;
      this.funcMap := funcMap;
      nodes := [NewNode(ValueNode, 0, None, 0, false, false), NewNode(ObjNode, 1, None, 0, false, false),
                NewNode(ValueNode, 2, None, 0, false, false), NewNode(ObjNode, 3, None, 0, false, false),
                NewNode(ObjNode, 4, None, 0, false, false)];
      taintedNodes := {};
      valueNodeMap := map[];
      objNodeMap := map[];
      returnMap := map[];
      varargMap := map[];
      gepMap := map[];
      gepNodeMap := map[];
      root := [0, 1, 2, 3, 4];
      rank := [0, 0, 0, 0, 0];
      new;
      assert forall i :: 0 <= i < 5 ==> LinkOk(nodes, root, rank, i);
    }

    method SetDataLayout(dl: DataLayout)
      modifies this`dataLayout
      ensures dataLayout == dl
    {
      dataLayout := dl;
    }

    // ---------------------------------------------------------- queries

    function IsObjectNode(i: nat): bool
      reads this
      requires i < |nodes|
    {
      nodes[i].kind == ObjNode
    }

    function IsUnionObject(i: nat): bool
      reads this
      requires i < |nodes|
    {
      nodes[i].isUnionObj
    }

    function IsHeapNode(i: nat): bool
      reads this
      requires i < |nodes|
    {
      nodes[i].isHeapNode
    }

    function GetUniversalPtrNode(): nat { UniversalPtrIndex }
    function GetUniversalObjNode(): nat { UniversalObjIndex }
    function GetNullPtrNode(): nat { NullPtrIndex }
    function GetNullObjectNode(): nat { NullObjectIndex }
    function GetConstantIntNode(): nat { ConstantIntIndex }

    /** The sentinel getters name nodes of the kinds the constructor gave them. */
    lemma SentinelKinds()
      requires Valid()
      ensures IsObjectNode(GetUniversalObjNode()) && IsObjectNode(GetNullObjectNode()) && IsObjectNode(GetConstantIntNode())
      ensures !IsObjectNode(GetUniversalPtrNode()) && !IsObjectNode(GetNullPtrNode())
      ensures |nodes| >= 5
    {
    }

    /** The object node `offset` fields after n: n itself for a union object,
        which has a single node for all its fields. */
    function GetOffsetObjectNode(n: nat, offset: nat): (r: Result<nat>)
      reads this
      requires n < |nodes|
      ensures nodes[n].isUnionObj ==> r == Ok(n)
      ensures !nodes[n].isUnionObj ==>
        (r.Ok? <==> n + offset < |nodes| && nodes[n + offset].kind == ObjNode &&
                    nodes[n + offset].offset == nodes[n].offset + offset)
      ensures r.Ok? && !nodes[n].isUnionObj ==> r.value == n + offset
      ensures r.Err? ==> r.fault == BrokenObjectRun
    {
      if nodes[n].isUnionObj then Ok(n)
      else if n + offset < |nodes| && nodes[n + offset].kind == ObjNode &&
              nodes[n].offset + offset == nodes[n + offset].offset
      then Ok(n + offset)
      else Err(BrokenObjectRun)
    }

    /** Within an object run, stepping `d` fields from field j lands on field j+d,
        and whatever getOffsetObjectNode gives is an object node. */
    lemma OffsetInRun(b: nat, size: nat, j: nat, d: nat)
      requires Valid() && ObjectRun(nodes, b, size) && j + d < size && !nodes[b + j].isUnionObj
      ensures GetOffsetObjectNode(b + j, d) == Ok(b + j + d)
      ensures nodes[b + j + d].kind == ObjNode
    {
      assert nodes[b + (j + d)].offset == j + d;
    }

    lemma OffsetNodeIsObject(n: nat, offset: nat)
      requires Valid() && n < |nodes|
      ensures GetOffsetObjectNode(n, offset).Ok? ==> IsObjectNode(GetOffsetObjectNode(n, offset).value)
    {
      assert NodeOk(nodes, n);
    }

    /** getObjectSize: scans forward while the next node is the next field. */
    method GetObjectSize(i: nat) returns (size: nat)
      requires i < |nodes| && nodes[i].kind == ObjNode
      ensures size == nodes[RunEnd(nodes, i)].offset + 1
      ensures size > nodes[i].offset
    {
      var j := i;
      var offset := nodes[i].offset;
      while j + 1 < |nodes| && nodes[j + 1].kind == ObjNode && nodes[j + 1].offset == offset + 1
        invariant i <= j < |nodes| && offset == nodes[j].offset >= nodes[i].offset
        invariant RunEnd(nodes, j) == RunEnd(nodes, i)
        decreases |nodes| - j
      {
        j := j + 1;
        offset := offset + 1;
      }
      size := offset + 1;
    }

    function GetObjectOffset(i: nat): (r: nat)
      reads this
      requires Valid() && i < |nodes| && nodes[i].kind == ObjNode
      ensures r <= i
    {
      assert NodeOk(nodes, i);
      nodes[i].offset
    }

    /** getObjectBound: one past the last node of i's object. */
    method GetObjectBound(i: nat) returns (bound: nat)
      requires Valid() && i < |nodes| && nodes[i].kind == ObjNode
      ensures bound == RunEnd(nodes, i) + 1
      ensures i < bound <= |nodes|
    {
      var offset := GetObjectOffset(i);
      var size := GetObjectSize(i);
      bound := i - offset + size;
    }

    /** In an object run, every field's size is the run's size and its bound
        is one past the run. */
    lemma BoundOfRun(b: nat, size: nat, j: nat)
      requires ObjectRun(nodes, b, size) && j < size
      ensures RunEnd(nodes, b + j) + 1 == b + size
      ensures nodes[RunEnd(nodes, b + j)].offset + 1 == size
    {
      RunEndOfObject(nodes, b, size, j);
      assert nodes[b + (size - 1)].offset == size - 1;
    }

    /** The value a node stands for: its own, or for a field node without
        one, that of the first node of its object. */
    function GetValueForNode(i: nat): (v: Option<Value>)
      reads this
      requires Valid() && i < |nodes|
      ensures nodes[i].value.Some? ==> v == nodes[i].value
    {
      assert NodeOk(nodes, i);
      if nodes[i].value.Some? then nodes[i].value else nodes[i - nodes[i].offset].value
    }

    lemma ValueOfField(b: nat, size: nat, j: nat)
      requires Valid() && ObjectRun(nodes, b, size) && j < size && nodes[b + j].value.None?
      ensures GetValueForNode(b + j) == nodes[b].value
    {
      assert nodes[b + j].offset == j;
    }

    /** The object node a constant-GEP value node points into. */
    function GetObjNodeForGEPExpr(i: nat): nat
      reads this
    {
      if i in gepNodeMap then gepNodeMap[i].0 + gepNodeMap[i].1 else InvalidIndex
    }

    function GetReturnNodeFor(f: Global): (r: nat)
      reads this
      requires Valid()
      ensures r == InvalidIndex <==> f !in returnMap || returnMap[f] == InvalidIndex
      ensures r != InvalidIndex ==> KindIs(nodes, r, ValueNode)
    {
      IdOf(returnMap, f)
    }

    function GetVarargNodeFor(f: Global): (r: nat)
      reads this
      requires Valid()
      ensures r == InvalidIndex <==> f !in varargMap || varargMap[f] == InvalidIndex
      ensures r != InvalidIndex ==> KindIs(nodes, r, ObjNode)
    {
      IdOf(varargMap, f)
    }

    // ---------------------------------------------------------- creation

    /** nodes.push_back */
    method Push(n: AndersNode) returns (i: nat)
      requires Valid() && n.idx == |nodes| && n.mergeTarget == |nodes| && n.offset <= |nodes|
      requires (n.isUnionObj || n.isHeapNode) ==> n.kind == ObjNode
      modifies this`nodes, this`root, this`rank
      ensures i == old(|nodes|) && nodes == old(nodes) + [n]
      ensures Valid()
    {
      i := |nodes|;
      AppendKeepsUnionFind(nodes, root, rank, n);
      nodes := nodes + [n];
      root := root + [i];
      rank := rank + [0];
      assert forall k :: 0 <= k < i ==> nodes[k] == old(nodes[k]) && NodeOk(old(nodes), k);
      assert LookupsOk(nodes, valueNodeMap, objNodeMap, returnMap, varargMap, taintedNodes);
      assert GepMapsOk(nodes, gepMap, gepNodeMap);
    }

    /** A value node for `val`; a non-null value may get one only once. */
    method CreateValueNode(val: Option<Value>) returns (id: nat)
      requires Valid()
      requires val.Some? ==> val.value !in valueNodeMap
      modifies this`nodes, this`root, this`rank, this`valueNodeMap
      ensures Valid()
      ensures id == old(|nodes|) && nodes == old(nodes) + [NewNode(ValueNode, id, val, 0, false, false)]
      ensures valueNodeMap == if val.Some? then old(valueNodeMap)[val.value := id] else old(valueNodeMap)
    {
      id := Push(NewNode(ValueNode, |nodes|, val, 0, false, false));
      if val.Some? {
        valueNodeMap := valueNodeMap[val.value := id];
      }
    }

    /** An object node for `val`. The node is appended first; a value that
        already has an object keeps it, and the new node is left unmapped. */
    method CreateObjectNode(val: Option<Value>, uo: bool, heap: bool) returns (id: nat)
      requires Valid()
      modifies this`nodes, this`root, this`rank, this`objNodeMap
      ensures Valid()
      ensures nodes == old(nodes) + [NewNode(ObjNode, old(|nodes|), val, 0, uo, heap)]
      ensures val.Some? && val.value in old(objNodeMap) ==> id == old(objNodeMap)[val.value] && objNodeMap == old(objNodeMap)
      ensures val.Some? && val.value !in old(objNodeMap) ==> id == old(|nodes|) && objNodeMap == old(objNodeMap)[val.value := id]
      ensures val.None? ==> id == old(|nodes|) && objNodeMap == old(objNodeMap)
      ensures KindIs(nodes, id, ObjNode)
    {
      id := Push(NewNode(ObjNode, |nodes|, val, 0, uo, heap));
      if val.Some? {
        if val.value in objNodeMap {
          id := objNodeMap[val.value];
          return;
        }
        objNodeMap := objNodeMap[val.value := id];
      }
    }

    /** Field `offset` of the object whose first node is `base`: it must be
        the next node of the arena. */
    method CreateFieldNode(base: nat, offset: nat, uo: bool, heap: bool) returns (id: nat)
      requires Valid() && offset != 0 && |nodes| == base + offset
      modifies this`nodes, this`root, this`rank
      ensures Valid()
      ensures id == base + offset && nodes == old(nodes) + [NewNode(ObjNode, id, None, offset, uo, heap)]
    {
      id := Push(NewNode(ObjNode, base + offset, None, offset, uo, heap));
    }

    /** The value node of f's return value, created once per function. */
    method CreateReturnNode(f: Global) returns (id: nat)
      requires Valid() && f.Function? && f !in returnMap
      modifies this`nodes, this`root, this`rank, this`returnMap
      ensures Valid()
      ensures id == old(|nodes|) && nodes == old(nodes) + [NewNode(ValueNode, id, Some(Const(GlobalRef(f))), 0, false, false)]
      ensures returnMap == old(returnMap)[f := id]
      ensures GetReturnNodeFor(f) == id
    {
      id := Push(NewNode(ValueNode, |nodes|, Some(Const(GlobalRef(f))), 0, false, false));
      returnMap := returnMap[f := id];
    }

    /** The object node of f's variadic arguments, created once per function. */
    method CreateVarargNode(f: Global) returns (id: nat)
      requires Valid() && f.Function? && f !in varargMap
      modifies this`nodes, this`root, this`rank, this`varargMap
      ensures Valid()
      ensures id == old(|nodes|) && nodes == old(nodes) + [NewNode(ObjNode, id, Some(Const(GlobalRef(f))), 0, false, false)]
      ensures varargMap == old(varargMap)[f := id]
      ensures GetVarargNodeFor(f) == id
    {
      id := Push(NewNode(ObjNode, |nodes|, Some(Const(GlobalRef(f))), 0, false, false));
      varargMap := varargMap[f := id];
    }

    // ---------------------------------------------------------- taint

    method SetNodeAsTainted(i: nat)
      requires Valid() && i < |nodes| && nodes[i].kind == ObjNode
      modifies this`taintedNodes
      ensures Valid()
      ensures taintedNodes == old(taintedNodes) + {i}
    {
      taintedNodes := taintedNodes + {i};
    }

    // ---------------------------------------------------------- merging

    ghost function Root(n: nat): nat
      reads this
      requires Valid() && n < |nodes|
    {
      root[n]
    }

    /** Merges n1 into n0. The source writes the link unconditionally; the
        precondition keeps the links acyclic so that getMergeTarget ends. */
    method MergeNode(n0: nat, n1: nat)
      requires Valid() && n0 < |nodes| && n1 < |nodes|
      requires nodes[n1].mergeTarget == n1 && Root(n0) != n1
      modifies this`nodes, this`root, this`rank
      ensures Valid()
      ensures nodes == old(nodes)[n1 := old(nodes[n1]).(mergeTarget := n0)]
      ensures forall i :: 0 <= i < |nodes| ==> root[i] == if old(root[i]) == n1 then old(root[n0]) else old(root[i])
    {
      MergeKeepsUnionFind(nodes, root, rank, n0, n1);
      RetargetKeepsArena(nodes, n1, n0);
      SameKindsKeepLookups(nodes, nodes[n1 := nodes[n1].(mergeTarget := n0)], valueNodeMap, objNodeMap,
                           returnMap, varargMap, taintedNodes, gepMap, gepNodeMap);
      rank := MergedRanks(root, rank, n0, n1);
      root := MergedRoots(root, n0, n1);
      nodes := nodes[n1 := nodes[n1].(mergeTarget := n0)];
    }

    /** The read-only getMergeTarget: follows merge targets to the root. */
    method GetMergeTargetReadOnly(n: nat) returns (ret: nat)
      requires Valid() && n < |nodes|
      ensures ret < |nodes| && nodes[ret].mergeTarget == ret && ret == Root(n)
      ensures TargetsOk(nodes) && exists k :: Follow(nodes, n, k) == ret
    {
      FollowKeepsRoot(nodes, root, rank, n, 0);
      assert LinkOk(nodes, root, rank, n);
      ret := nodes[n].mergeTarget;
      assert LinkOk(nodes, root, rank, ret);
      ghost var steps := 1;
      while ret != nodes[ret].mergeTarget
        invariant ret < |nodes| && ret == Follow(nodes, n, steps) && root[ret] == root[n] && rank[ret] <= rank[root[n]]
        decreases rank[root[n]] - rank[ret]
      {
        assert LinkOk(nodes, root, rank, ret);
        FollowSplit(nodes, n, steps, 1);
        ret := nodes[ret].mergeTarget;
        assert LinkOk(nodes, root, rank, ret);
        steps := steps + 1;
      }
      assert LinkOk(nodes, root, rank, ret);
    }

    /** getMergeTarget: follows merge targets to the root, then points every
        node on the walked path straight at it. */
    method GetMergeTarget(n: nat) returns (ret: nat)
      requires Valid() && n < |nodes|
      modifies this`nodes
      ensures Valid()
      ensures |nodes| == old(|nodes|)
      ensures ret < |nodes| && nodes[ret].mergeTarget == ret && ret == old(Root(n))
      ensures forall i :: 0 <= i < |nodes| ==>
        nodes[i] == old(nodes[i]).(mergeTarget := nodes[i].mergeTarget) &&
        (nodes[i].mergeTarget == old(nodes[i].mergeTarget) || (old(root[i]) == ret && nodes[i].mergeTarget == ret))
      ensures TargetsOk(old(nodes)) &&
        forall k :: nodes[Follow(old(nodes), n, k)].mergeTarget == ret
    {
      FollowKeepsRoot(nodes, root, rank, n, 0);
      assert LinkOk(nodes, root, rank, n);
      ret := nodes[n].mergeTarget;
      if ret == n {
        forall k: nat ensures nodes[Follow(nodes, n, k)].mergeTarget == ret {
          FollowFromRoot(nodes, n, k);
        }
        return;
      }
      ghost var walked := nodes;
      var path: seq<nat>;
      ret, path := WalkToRoot(n);
      CompressPath(path, ret);
      forall k: nat ensures nodes[Follow(walked, n, k)].mergeTarget == ret {
        if k < |path| {
          assert Follow(walked, n, k) == path[k];
        } else {
          FollowSplit(walked, n, |path|, k - |path|);
          FollowFromRoot(walked, ret, k - |path|);
        }
      }
    }

    /** The first loop of getMergeTarget: the nodes from n up to (not
        including) the root, and the root. */
    method WalkToRoot(n: nat) returns (ret: nat, path: seq<nat>)
      requires Valid() && n < |nodes| && nodes[n].mergeTarget != n
      ensures TargetsOk(nodes) && ret < |nodes| && ret == Root(n) && nodes[ret].mergeTarget == ret
      ensures ret == Follow(nodes, n, |path|)
      ensures forall j :: 0 <= j < |path| ==> path[j] == Follow(nodes, n, j)
      ensures forall j :: 0 <= j < |path| ==> path[j] < |nodes| && nodes[path[j]].mergeTarget != path[j] && root[path[j]] == ret
    {
      FollowKeepsRoot(nodes, root, rank, n, 0);
      assert LinkOk(nodes, root, rank, n);
      ret := nodes[n].mergeTarget;
      assert LinkOk(nodes, root, rank, ret);
      path := [n];
      while ret != nodes[ret].mergeTarget
        invariant ret < |nodes| && ret == Follow(nodes, n, |path|) && root[ret] == root[n] && rank[ret] <= rank[root[n]]
        invariant forall j :: 0 <= j < |path| ==> path[j] == Follow(nodes, n, j) && path[j] < |nodes|
        invariant forall j :: 0 <= j < |path| ==> nodes[path[j]].mergeTarget != path[j] && root[path[j]] == root[n]
        decreases rank[root[n]] - rank[ret]
      {
        assert LinkOk(nodes, root, rank, ret);
        FollowSplit(nodes, n, |path|, 1);
        path := path + [ret];
        ret := nodes[ret].mergeTarget;
        assert LinkOk(nodes, root, rank, ret);
      }
      assert LinkOk(nodes, root, rank, ret);
    }

    /** The second loop of getMergeTarget: every node of `path` is pointed
        at the root `ret` of its set. */
    method CompressPath(path: seq<nat>, ret: nat)
      requires Valid()
      requires forall j :: 0 <= j < |path| ==> path[j] < |nodes| && nodes[path[j]].mergeTarget != path[j] && root[path[j]] == ret
      modifies this`nodes
      ensures Valid()
      ensures Compressed(old(nodes), nodes, root, ret)
      ensures forall j :: 0 <= j < |path| ==> nodes[path[j]].mergeTarget == ret
    {
      for j := 0 to |path|
        invariant UnionFind(nodes, root, rank) && ArenaOk(nodes)
        invariant Compressed(old(nodes), nodes, root, ret)
        invariant forall i :: 0 <= i < j ==> nodes[path[i]].mergeTarget == ret
      {
        var p := path[j];
        CompressStep(old(nodes), nodes, root, rank, p, ret);
        nodes := nodes[p := nodes[p].(mergeTarget := ret)];
      }
      CompressedKinds(old(nodes), nodes, root, ret);
      SameKindsKeepLookups(old(nodes), nodes, valueNodeMap, objNodeMap, returnMap, varargMap, taintedNodes, gepMap, gepNodeMap);
    }

    // ------------------------------------------------- values to nodes

    /** A valid id that a value lookup gives names a value node, or the
        constant-int object that stands for every non-pointer constant. */
    predicate ValueResult(r: nat)
      reads this
    {
      r == InvalidIndex || (r < |nodes| && (nodes[r].kind == ValueNode || r == ConstantIntIndex))
    }

    /** A valid id that an object lookup gives names an object node, or the
        universal pointer node that getObjectNodeForConstant gives for a
        non-pointer constant. */
    predicate ObjectResult(r: nat)
      reads this
    {
      r == InvalidIndex || (r < |nodes| && (nodes[r].kind == ObjNode || r == UniversalPtrIndex))
    }

    /** The entries of the value lookups only grow, and the arena only grows
        at its end. */
    twostate predicate Grows()
      reads this
    {
      old(nodes) <= nodes &&
      (forall v :: v in old(valueNodeMap) ==> v in valueNodeMap && valueNodeMap[v] == old(valueNodeMap)[v]) &&
      (forall k {:trigger k in old(gepMap)} :: k in old(gepMap) ==> k in gepMap && gepMap[k] == old(gepMap)[k])
    }

    /** getValueNodeFor past its first test: a declared global stands for its
        definition elsewhere (or the universal pointer when there is none),
        and the value map is consulted. */
    function ValueNodeOf(val: Value): (r: nat)
      reads this
      requires Valid() && !(val.Const? && !val.IsGlobal())
      ensures ValueResult(r)
    {
      if val.IsGlobal() then GlobalNodeIn(valueNodeMap, gobjMap, val.c.g)
      else IdOf(valueNodeMap, val)
    }

    method GetValueNodeFor(val: Value) returns (res: Result<nat>)
      requires Valid() && Ready(structAnalyzer)
      modifies this`nodes, this`root, this`rank, this`valueNodeMap, this`gepMap, this`gepNodeMap
      decreases Depth(val), if val.Const? && !val.IsGlobal() then 2 else 0
      ensures Valid() && Grows()
      ensures !(val.Const? && !val.IsGlobal()) ==> res == Ok(old(ValueNodeOf(val))) && unchanged(this)
      ensures val.Const? ==> res == ConstValueNode(val.c)
      ensures res.Ok? ==> ValueResult(res.value)
    {
      if val.Const? && !val.IsGlobal() {
        res := GetValueNodeForConstant(val.c);
        return;
      }
      res := Ok(ValueNodeOf(val));
    }

    /** The value node of constant c in the current tables. */
    function ConstValueNode(c: Constant): Result<nat>
      reads this, structAnalyzer
      requires Wf(ViewOf(structAnalyzer))
    {
      ConstNodeIn(valueNodeMap, gepMap, gobjMap, ViewOf(structAnalyzer), dataLayout, underlyingPointee, c)
    }

    /** The field number of a constant GEP: its folded byte offset, resolved
        against the pointee type of the object it is based on. */
    function GEPFieldNum(ce: Constant): Result<nat>
      reads this, structAnalyzer
      requires ce.GEPExpr? && Wf(ViewOf(structAnalyzer))
    {
      FieldNum(ViewOf(structAnalyzer), dataLayout, underlyingPointee(ce),
               GEPOffset(dataLayout, ce.srcElemType, Const(ce.base), ce.indices))
    }

    method ConstGEPToFieldNum(ce: Constant) returns (r: Result<nat>)
      requires ce.GEPExpr? && Ready(structAnalyzer)
      ensures r == GEPFieldNum(ce)
    {
      var offset := GetGEPOffset(dataLayout, ce.srcElemType, Const(ce.base), ce.indices);
      r := OffsetToFieldNum(underlyingPointee(ce), offset, dataLayout, structAnalyzer);
    }

    /** The value node of constant GEP `ce` at field `fieldNum` of the object
        behind `baseNode`: the base itself at field 0, otherwise the node
        memoized for (baseNode, fieldNum), made on first use. */
    method GepValueNode(baseNode: nat, fieldNum: nat, ce: Constant) returns (res: Result<nat>)
      requires Valid()
      modifies this`nodes, this`root, this`rank, this`valueNodeMap, this`gepMap, this`gepNodeMap
      ensures Valid() && Grows()
      ensures fieldNum == 0 ==> res == Ok(baseNode) && unchanged(this)
      ensures fieldNum != 0 && (baseNode, fieldNum) in old(gepMap) ==>
        res == Ok(old(gepMap)[(baseNode, fieldNum)]) && unchanged(this)
      ensures fieldNum != 0 && (baseNode, fieldNum) !in old(gepMap) && Const(ce) in old(valueNodeMap) ==>
        res == Err(DuplicateValueNode) && unchanged(this)
      ensures fieldNum != 0 && (baseNode, fieldNum) !in old(gepMap) && Const(ce) !in old(valueNodeMap) ==>
        res == Ok(old(|nodes|)) &&
        nodes == old(nodes) + [NewNode(ValueNode, old(|nodes|), Some(Const(ce)), 0, false, false)] &&
        valueNodeMap == old(valueNodeMap)[Const(ce) := res.value] &&
        gepMap == old(gepMap)[(baseNode, fieldNum) := res.value] &&
        gepNodeMap == old(gepNodeMap)[res.value := (baseNode, fieldNum)]
      ensures res.Ok? && fieldNum != 0 ==>
        (baseNode, fieldNum) in gepMap && gepMap[(baseNode, fieldNum)] == res.value &&
        KindIs(nodes, res.value, ValueNode) && GetObjNodeForGEPExpr(res.value) == baseNode + fieldNum
    {
      if fieldNum == 0 {
        return Ok(baseNode);
      }
      var mapKey := (baseNode, fieldNum);
      if mapKey in gepMap {
        return Ok(gepMap[mapKey]);
      }
      if Const(ce) in valueNodeMap {
        return Err(DuplicateValueNode);
      }
      var gepIndex := CreateValueNode(Some(Const(ce)));
      gepMap := gepMap[mapKey := gepIndex];
      gepNodeMap := gepNodeMap[gepIndex := mapKey];
      res := Ok(gepIndex);
    }

    /** The node of a constant GEP in terms of its base's node and its field
        number: the base's error or a fault of its own when the base has none
        to index into, the base's node at field 0, the memoized node of
        (base, field) otherwise. */
    function GepNodeOf(c: Constant): Result<nat>
      reads this, structAnalyzer
      requires Wf(ViewOf(structAnalyzer)) && c.GEPExpr?
    {
      var b := ConstValueNode(c.base);
      if b.Err? then b
      else if b.value == InvalidIndex then Err(MissingBaseNode)
      else if b.value == NullObjectIndex then Ok(NullPtrIndex)
      else if b.value == UniversalObjIndex then Ok(UniversalPtrIndex)
      else if GEPFieldNum(c).Err? then Err(GEPFieldNum(c).fault)
      else if GEPFieldNum(c).value == 0 then b
      else if (b.value, GEPFieldNum(c).value) in gepMap then Ok(gepMap[(b.value, GEPFieldNum(c).value)])
      else Err(DuplicateValueNode)
    }

    /** The GEP arm of getValueNodeForConstant. */
    method ConstGepValueNode(c: Constant) returns (res: Result<nat>)
      requires Valid() && Ready(structAnalyzer) && c.GEPExpr? && IsPointerConstant(c)
      modifies this`nodes, this`root, this`rank, this`valueNodeMap, this`gepMap, this`gepNodeMap
      decreases ConstDepth(c), 0
      ensures Valid() && Grows()
      ensures res == GepNodeOf(c) && res == ConstValueNode(c)
      ensures IsGepBase(ConstValueNode(c.base)) && GEPFieldNum(c) == Ok(0) ==> res == ConstValueNode(c.base)
      ensures res.Ok? ==> ValueResult(res.value)
    {
      var base := c.base;
      var baseNode := GetValueNodeForConstant(base);
      if baseNode.Err? {
        return baseNode;
      }
      if baseNode.value == InvalidIndex {
        return Err(MissingBaseNode);
      }
      if baseNode.value == NullObjectIndex {
        return Ok(NullPtrIndex);
      }
      if baseNode.value == UniversalObjIndex {
        return Ok(UniversalPtrIndex);
      }
      var fieldNum := ConstGEPToFieldNum(c);
      if fieldNum.Err? {
        return Err(fieldNum.fault);
      }
      ghost var vals, geps := valueNodeMap, gepMap;
      res := GepValueNode(baseNode.value, fieldNum.value, c);
      ConstNodeGrow(vals, geps, valueNodeMap, gepMap, gobjMap, ViewOf(structAnalyzer), dataLayout,
                    underlyingPointee, base);
    }

    method GetValueNodeForConstant(c: Constant) returns (res: Result<nat>)
      requires Valid() && Ready(structAnalyzer)
      modifies this`nodes, this`root, this`rank, this`valueNodeMap, this`gepMap, this`gepNodeMap
      decreases ConstDepth(c), 1
      ensures Valid() && Grows()
      ensures !IsPointerConstant(c) ==> res == Ok(ConstantIntIndex) && unchanged(this)
      ensures IsPointerConstant(c) && (c.Null? || c.Undef?) ==> res == Ok(NullPtrIndex) && unchanged(this)
      ensures IsPointerConstant(c) && (c.IntToPtr? || c.PtrToInt? || c.BlockAddr?) ==>
        res == Ok(NullPtrIndex) && unchanged(this)
      ensures IsPointerConstant(c) && c.OtherConst? ==> res == Err(UnhandledConstant)
      ensures c.GlobalRef? ==> res == Ok(old(ValueNodeOf(Const(c)))) && unchanged(this)
      ensures res == ConstValueNode(c)
      ensures c.GEPExpr? && IsPointerConstant(c) ==> res == GepNodeOf(c)
      ensures c.BitCast? && IsPointerConstant(c) ==>
        res == (if ConstValueNode(c.src) == Ok(NullObjectIndex) then Ok(NullPtrIndex)
                else if ConstValueNode(c.src) == Ok(UniversalObjIndex) then Ok(UniversalPtrIndex)
                else ConstValueNode(c.src))
      ensures res.Ok? ==> ValueResult(res.value)
    {
      if !IsPointerConstant(c) {
        return Ok(ConstantIntIndex);
      }
      match c {
        case Null =>
          res := Ok(NullPtrIndex);
        case Undef(_) =>
          res := Ok(NullPtrIndex);
        case GlobalRef(_) =>
          res := GetValueNodeFor(Const(c));
        case GEPExpr(_, _, _) =>
          res := ConstGepValueNode(c);
        case BitCast(src, _) =>
          var srcNode := GetValueNodeFor(Const(src));
          if srcNode.Ok? && srcNode.value == NullObjectIndex {
            return Ok(NullPtrIndex);
          }
          if srcNode.Ok? && srcNode.value == UniversalObjIndex {
            return Ok(UniversalPtrIndex);
          }
          res := srcNode;
        case IntToPtr(_, _) =>
          res := Ok(NullPtrIndex);
        case PtrToInt(_, _) =>
          res := Ok(NullPtrIndex);
        case BlockAddr =>
          res := Ok(NullPtrIndex);
        case OtherConst(_) =>
          res := Err(UnhandledConstant);
      }
    }

    // ------------------------------------------------ values to objects

    /** getObjectNodeFor past its first test: a declared global variable or
        function stands for its definition elsewhere when there is one. */
    function ObjectKey(val: Value): Value
      reads this
    {
      if val.IsGlobal() && val.c.g.isDecl then
        var g := val.c.g;
        if g.GlobalVar? && g.name in gobjMap then Const(GlobalRef(gobjMap[g.name]))
        else if g.Function? && g.name in funcMap then Const(GlobalRef(funcMap[g.name]))
        else val
      else val
    }

    /** getObjectNodeFor: reads the arena and the lookups only. */
    function GetObjectNodeFor(val: Value): (r: Result<nat>)
      reads this, structAnalyzer
      requires Valid() && Wf(ViewOf(structAnalyzer))
      decreases Depth(val), if val.Const? && !val.IsGlobal() then 2 else 0
      ensures r.Ok? ==> ObjectResult(r.value)
    {
      if val.Const? && !val.IsGlobal() then GetObjectNodeForConstant(val.c)
      else Ok(IdOf(objNodeMap, ObjectKey(val)))
    }

    /** getObjectNodeForConstant. */
    function GetObjectNodeForConstant(c: Constant): (r: Result<nat>)
      reads this, structAnalyzer
      requires Valid() && Wf(ViewOf(structAnalyzer))
      decreases ConstDepth(c), 1
      ensures r.Ok? ==> ObjectResult(r.value)
    {
      if !IsPointerConstant(c) then Ok(UniversalPtrIndex)
      else match c
        case Null => Ok(NullObjectIndex)
        case GlobalRef(_) => GetObjectNodeFor(Const(c))
        case GEPExpr(_, base, _) =>
          var baseNode := GetObjectNodeForConstant(base);
          if baseNode.Err? then baseNode
          else if baseNode.value == InvalidIndex then Err(MissingBaseNode)
          else if baseNode.value == NullObjectIndex || baseNode.value == UniversalObjIndex then baseNode
          else
            var fieldNum := GEPFieldNum(c);
            if fieldNum.Err? then Err(fieldNum.fault)
            else
              OffsetNodeIsObject(baseNode.value, fieldNum.value);
              GetOffsetObjectNode(baseNode.value, fieldNum.value)
        case IntToPtr(_, _) => Ok(NullObjectIndex)
        case PtrToInt(_, _) => Ok(NullObjectIndex)
        case BitCast(src, _) => GetObjectNodeForConstant(src)
        case BlockAddr => Ok(NullObjectIndex)
        case Undef(_) => Err(UnhandledConstant)
        case OtherConst(_) => Err(UnhandledConstant)
    }

    /** The two lookups disagree on a non-pointer constant: the value lookup
        gives the constant-int object, the object lookup the universal
        pointer, which is a value node. */
    lemma NonPointerConstantNodes(v: nat)
      requires Valid() && Wf(ViewOf(structAnalyzer))
      ensures GetObjectNodeForConstant(ConstInt(v)) == Ok(UniversalPtrIndex)
      ensures !IsObjectNode(UniversalPtrIndex) && IsObjectNode(ConstantIntIndex)
    {
    }
  }
}
