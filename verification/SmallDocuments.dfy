/** Small documents through inference and the first passes of finalize, one entry, one node and one
    visit at a time. */
module SmallDocuments {
  import opened Wrappers
  import opened TypeGraph
  import opened Trees
  import opened Naming
  import opened GraphSameShape
  import opened Shapes
  import Merge
  import Infer
  import Resolve
  import Collapse
  import opened Finalize

  const ONE := ScalarDoc(IntegerNode)
  const INT := Scalar("int")

  // ---------- inference on small documents ----------

  lemma OneItem(d: Doc, s: Shape)
    requires Infer.InferNode(d) == Success(s) && UniqueNames(s)
    ensures Infer.InferNode(SequenceDoc([d])) == Success(Slice(Some(s)))
  {
    var none: seq<Doc> := [];
    var nothing: seq<Shape> := [];
    assert [d][..|[d]| - 1] == none && nothing + [s] == [s];
    assert Infer.InferItems(none) == Success(nothing);
    Merge.MergeOfOne(s);
  }

  function Pair(name: string, d: Doc): Entry {
    Entry(StringKey(name), d)
  }

  lemma NextEntry(entries: seq<Entry>, fields: seq<Field>, name: string, d: Doc, s: Shape)
    requires Infer.InferEntries(entries) == Success(fields) && Infer.InferNode(d) == Success(s)
    ensures Infer.InferEntries(entries + [Pair(name, d)]) == Success(fields + [Field(name, s)])
  {
    assert (entries + [Pair(name, d)])[..|entries|] == entries;
  }

  lemma OneEntry(name: string, d: Doc, s: Shape)
    requires Infer.InferNode(d) == Success(s)
    ensures Infer.InferEntries([Pair(name, d)]) == Success([Field(name, s)])
  {
    assert [] + [Pair(name, d)] == [Pair(name, d)] && [] + [Field(name, s)] == [Field(name, s)];
    NextEntry([], [], name, d, s);
  }

  lemma TwoEntries(name: string, d: Doc, s: Shape, name': string, d': Doc, s': Shape)
    requires Infer.InferNode(d) == Success(s) && Infer.InferNode(d') == Success(s')
    ensures Infer.InferEntries([Pair(name, d), Pair(name', d')]) == Success([Field(name, s), Field(name', s')])
  {
    OneEntry(name, d, s);
    NextEntry([Pair(name, d)], [Field(name, s)], name', d', s');
    assert [Pair(name, d)] + [Pair(name', d')] == [Pair(name, d), Pair(name', d')];
    assert [Field(name, s)] + [Field(name', s')] == [Field(name, s), Field(name', s')];
  }

  lemma ThreeEntries(name: string, d: Doc, s: Shape, name': string, d': Doc, s': Shape, name'': string, d'': Doc, s'': Shape)
    requires Infer.InferNode(d) == Success(s) && Infer.InferNode(d') == Success(s') && Infer.InferNode(d'') == Success(s'')
    ensures Infer.InferEntries([Pair(name, d), Pair(name', d'), Pair(name'', d'')]) ==
            Success([Field(name, s), Field(name', s'), Field(name'', s'')])
  {
    TwoEntries(name, d, s, name', d', s');
    NextEntry([Pair(name, d), Pair(name', d')], [Field(name, s), Field(name', s')], name'', d'', s'');
    assert [Pair(name, d), Pair(name', d')] + [Pair(name'', d'')] == [Pair(name, d), Pair(name', d'), Pair(name'', d'')];
    assert [Field(name, s), Field(name', s')] + [Field(name'', s'')] == [Field(name, s), Field(name', s'), Field(name'', s'')];
  }

  ghost predicate InferredAs(e: Entry, f: Field) {
    e.key == StringKey(f.name) && Infer.InferNode(e.value) == Success(f.shape)
  }

  lemma {:induction false} EntriesInferred(entries: seq<Entry>, fields: seq<Field>)
    requires |entries| == |fields| && forall i :: 0 <= i < |fields| ==> InferredAs(entries[i], fields[i])
    ensures Infer.InferEntries(entries) == Success(fields)
  {
    if entries != [] {
      var k := |entries| - 1;
      assert InferredAs(entries[k], fields[k]);
      EntriesInferred(entries[..k], fields[..k]);
      NextEntry(entries[..k], fields[..k], fields[k].name, entries[k].value, fields[k].shape);
      assert entries[..k] + [Pair(fields[k].name, entries[k].value)] == entries;
      assert fields[..k] + [Field(fields[k].name, fields[k].shape)] == fields;
    }
  }

  lemma OneTheme(d: Doc, s: Shape)
    requires Infer.InferNode(d) == Success(s) && UniqueNames(s)
    ensures Infer.UnionThemes([Some(d)]) == Success(Some(s))
  {
    var themes: seq<Infer.Theme> := [Some(d)];
    var none: seq<Infer.Theme> := [];
    var nothing: seq<Shape> := [];
    assert themes[..|themes| - 1] == none && nothing + [s] == [s];
    assert Infer.InferThemes(none) == Success(nothing);
    Merge.MergeOfOne(s);
  }

  // ---------- nodes ----------

  ghost predicate IsStruct(g: Graph, n: TypeSpec, name: string, fields: seq<FieldSpec>) {
    n in g && g[n].kind == KindStruct && g[n].name == name && g[n].fields == fields
  }

  ghost predicate IsSlice(g: Graph, n: TypeSpec, element: TypeSpec?) {
    n in g && g[n].kind == KindSlice && g[n].element == element
  }

  ghost predicate IsScalar(g: Graph, n: TypeSpec, scalar: string) {
    n in g && g[n].kind == KindScalar && g[n].scalar == scalar
  }

  /** The nodes of a tree are distinct, in the order of the walk. */
  lemma TreeNodes(built: Graph, g: Graph, root: TypeSpec, s: Shape)
    requires IsBuilt(built, root, s) && IsNamed(built, g, root, s)
    ensures Tree(g, root, s) && Walk(g, root, {}) == PreOrder(g, root, s) && Distinct(PreOrder(g, root, s))
    ensures Closed(g) && g.Keys == Set(PreOrder(g, root, s))
  {
    NamedStage(built, g, root, s);
    RenamedTree(built, g, root, s);
    WalkTree(g, root, s, {});
    WalkFresh(g, root, {});
  }

  /** A named part of the graph, unfolded by one level. */
  ghost predicate Part(g: Graph, n: TypeSpec, s: Shape, parent: string) {
    Represents(g, n, s) && NamedAs(g, n, s, parent)
  }

  lemma StructOfOne(g: Graph, n: TypeSpec, f: Field, parent: string) returns (t: TypeSpec)
    requires Part(g, n, Struct([f]), parent)
    ensures IsStruct(g, n, g[n].name, [FieldSpec(f.name, t)])
    ensures Represents(g, t, f.shape) && ChildNamed(g, t, f, parent)
    ensures PreOrder(g, n, Struct([f])) == [n] + PreOrder(g, t, f.shape)
  {
    var fields := [f];
    t := g[n].fields[0].typ;
    assert ChildNamed(g, t, fields[0], parent);
    assert PreOrderFrom(g, n, fields, 1) == [];
    assert PreOrderFrom(g, n, fields, 0) == PreOrder(g, t, f.shape) + [];
  }

  lemma StructOfTwo(g: Graph, n: TypeSpec, f0: Field, f1: Field, parent: string) returns (t0: TypeSpec, t1: TypeSpec)
    requires Part(g, n, Struct([f0, f1]), parent)
    ensures IsStruct(g, n, g[n].name, [FieldSpec(f0.name, t0), FieldSpec(f1.name, t1)])
    ensures Represents(g, t0, f0.shape) && ChildNamed(g, t0, f0, parent)
    ensures Represents(g, t1, f1.shape) && ChildNamed(g, t1, f1, parent)
    ensures PreOrder(g, n, Struct([f0, f1])) == [n] + PreOrder(g, t0, f0.shape) + PreOrder(g, t1, f1.shape)
  {
    var fields := [f0, f1];
    t0, t1 := g[n].fields[0].typ, g[n].fields[1].typ;
    assert ChildNamed(g, t0, fields[0], parent) && ChildNamed(g, t1, fields[1], parent);
    assert PreOrderFrom(g, n, fields, 2) == [];
    assert PreOrderFrom(g, n, fields, 1) == PreOrder(g, t1, f1.shape) + [];
    assert PreOrderFrom(g, n, fields, 0) == PreOrder(g, t0, f0.shape) + PreOrderFrom(g, n, fields, 1);
  }

  lemma StructOfThree(g: Graph, n: TypeSpec, f0: Field, f1: Field, f2: Field, parent: string)
    returns (t0: TypeSpec, t1: TypeSpec, t2: TypeSpec)
    requires Part(g, n, Struct([f0, f1, f2]), parent)
    ensures IsStruct(g, n, g[n].name, [FieldSpec(f0.name, t0), FieldSpec(f1.name, t1), FieldSpec(f2.name, t2)])
    ensures Represents(g, t0, f0.shape) && ChildNamed(g, t0, f0, parent)
    ensures Represents(g, t1, f1.shape) && ChildNamed(g, t1, f1, parent)
    ensures Represents(g, t2, f2.shape) && ChildNamed(g, t2, f2, parent)
    ensures PreOrder(g, n, Struct([f0, f1, f2])) ==
            [n] + PreOrder(g, t0, f0.shape) + PreOrder(g, t1, f1.shape) + PreOrder(g, t2, f2.shape)
  {
    var fields := [f0, f1, f2];
    t0, t1, t2 := g[n].fields[0].typ, g[n].fields[1].typ, g[n].fields[2].typ;
    assert ChildNamed(g, t0, fields[0], parent) && ChildNamed(g, t1, fields[1], parent) && ChildNamed(g, t2, fields[2], parent);
    assert PreOrderFrom(g, n, fields, 3) == [];
    assert PreOrderFrom(g, n, fields, 2) == PreOrder(g, t2, f2.shape) + [];
    assert PreOrderFrom(g, n, fields, 1) == PreOrder(g, t1, f1.shape) + PreOrderFrom(g, n, fields, 2);
    assert PreOrderFrom(g, n, fields, 0) == PreOrder(g, t0, f0.shape) + PreOrderFrom(g, n, fields, 1);
  }

  lemma SliceOf(g: Graph, n: TypeSpec, e: Shape) returns (t: TypeSpec)
    requires Represents(g, n, Slice(Some(e)))
    ensures IsSlice(g, n, t) && Represents(g, t, e)
    ensures PreOrder(g, n, Slice(Some(e))) == [n] + PreOrder(g, t, e)
  {
    t := g[n].element;
  }

  /** A list of structs under a field. */
  lemma StructList(g: Graph, n: TypeSpec, f: Field, e: Shape, parent: string) returns (t: TypeSpec)
    requires f.shape == Slice(Some(e)) && e.Struct?
    requires Represents(g, n, f.shape) && ChildNamed(g, n, f, parent)
    ensures IsSlice(g, n, t) && t in g && g[t].name == ElementName(parent, f.name)
    ensures Part(g, t, e, ElementName(parent, f.name))
    ensures PreOrder(g, n, f.shape) == [n] + PreOrder(g, t, e)
  {
    t := g[n].element;
  }

  lemma StructUnder(g: Graph, n: TypeSpec, f: Field, parent: string)
    requires f.shape.Struct? && Represents(g, n, f.shape) && ChildNamed(g, n, f, parent)
    ensures n in g && g[n].name == f.name && Part(g, n, f.shape, f.name)
  {
  }

  // ---------- the pass that fills empty slices ----------

  lemma OnlyCandidate(g: Graph, calls: seq<TypeSpec>, n: TypeSpec, f: FieldSpec)
    requires n in calls && n in g && g[n].kind == KindStruct && f in g[n].fields && Resolve.KnownSlice(g, f.typ)
    requires forall other, e | other in calls && Resolve.Knows(g, other, f.name, e) :: e == g[f.typ].element
    ensures var candidates := Resolve.Candidates(g, calls);
            f.name in candidates && candidates[f.name] == g[f.typ].element
  {
    Resolve.CandidatesExact(g, calls);
    var e := Resolve.Candidates(g, calls)[f.name];
    assert Resolve.KnownToSome(g, calls, f.name, e);
  }

  /** Fields that are not null stay what they were. */
  lemma FieldsKept(g0: Graph, g: Graph, n: TypeSpec, candidates: map<string, TypeSpec>)
    requires Resolve.Grown(g0, g, candidates) && n in g0
    requires forall f <- g0[n].fields :: f.typ in g0 && g0[f.typ].kind != KindNull
    ensures g[n].fields == g0[n].fields
  {
    assert Resolve.NodeGrown(g0, g, n, candidates);
    forall i | 0 <= i < |g0[n].fields|
      ensures g[n].fields[i] == g0[n].fields[i]
    {
      assert g0[n].fields[i] in g0[n].fields;
      assert Resolve.FieldGrown(g0, g, g0[n].fields[i], g[n].fields[i], candidates);
    }
  }

  // Where no field is a null or an element-less slice resolveEmptySlices leaves everything as it is.

  ghost predicate NothingToFill(g: Graph) {
    forall n <- g ::
      && g[n].kind != KindNull
      && (g[n].kind == KindStruct ==> forall f <- g[n].fields :: f.typ in g && (g[f.typ].kind == KindSlice ==> g[f.typ].element != null))
  }

  lemma NodeUnfilled(g0: Graph, g: Graph, candidates: map<string, TypeSpec>, n: TypeSpec)
    requires Resolve.Grown(g0, g, candidates) && NothingToFill(g0) && n in g0
    ensures n in g && g[n].kind == g0[n].kind && g[n].name == g0[n].name && g[n].scalar == g0[n].scalar
    ensures g[n].kind == KindSlice ==> g[n].element == g0[n].element
    ensures g[n].kind == KindStruct ==> g[n].fields == g0[n].fields
    ensures Children(g[n]) == Children(g0[n])
  {
    assert Resolve.NodeGrown(g0, g, n, candidates);
    if g0[n].kind == KindStruct {
      FieldsKept(g0, g, n, candidates);
    }
  }

  /** In g the node is what it was in g0. */
  ghost predicate NodeSame(g0: Graph, g: Graph, n: TypeSpec) {
    && n in g0 && n in g && g[n].kind == g0[n].kind && g[n].name == g0[n].name && g[n].scalar == g0[n].scalar
    && (g[n].kind == KindSlice ==> g[n].element == g0[n].element)
    && (g[n].kind == KindStruct ==> g[n].fields == g0[n].fields)
  }

  lemma NodesUnfilled(g0: Graph, g: Graph, candidates: map<string, TypeSpec>, ns: seq<TypeSpec>)
    requires Resolve.Grown(g0, g, candidates) && NothingToFill(g0) && forall n <- ns :: n in g0
    ensures forall i {:trigger NodeSame(g0, g, ns[i])} :: 0 <= i < |ns| ==> NodeSame(g0, g, ns[i])
  {
    forall i | 0 <= i < |ns|
      ensures NodeSame(g0, g, ns[i])
    {
      NodeUnfilled(g0, g, candidates, ns[i]);
    }
  }

  lemma WalkUnfilled(g0: Graph, g: Graph, candidates: map<string, TypeSpec>, root: TypeSpec)
    requires Resolve.Grown(g0, g, candidates) && NothingToFill(g0) && root in g0
    ensures Walk(g, root, {}) == Walk(g0, root, {})
  {
    forall n <- g0
      ensures Children(g[n]) == Children(g0[n])
    {
      NodeUnfilled(g0, g, candidates, n);
    }
    SameWalk(g0, g, root, {});
  }

  // ---------- one visit of a renaming pass ----------

  /** After the first k visits of a pass that began in state st, the state is now. */
  ghost predicate At(st: PassState, calls: seq<TypeSpec>, k: nat, bound: nat, now: PassState) {
    && ValidState(st, bound) && (forall n <- calls :: n in st.graph) && k <= |calls|
    && DeduplicateAll(st, calls[..k], bound) == now && ValidState(now, bound) && now.graph.Keys == st.graph.Keys
  }

  lemma Begin(st: PassState, calls: seq<TypeSpec>, bound: nat)
    requires ValidState(st, bound) && forall n <- calls :: n in st.graph
    ensures At(st, calls, 0, bound, st)
  {
    assert calls[..0] == [];
  }

  lemma Finish(st: PassState, calls: seq<TypeSpec>, bound: nat, now: PassState)
    requires At(st, calls, |calls|, bound, now) && !st.changed
    ensures PassOver(st, calls, bound) == now
  {
    assert calls[..|calls|] == calls && st.(changed := false) == st;
  }

  lemma VisitOther(st: PassState, calls: seq<TypeSpec>, k: nat, bound: nat, now: PassState)
    requires At(st, calls, k, bound, now) && k < |calls| && now.graph[calls[k]].kind != KindStruct
    ensures At(st, calls, k + 1, bound, now)
  {
    NextDeduplicated(st, calls, k, bound);
  }

  lemma {:induction false} SkipTo(st: PassState, calls: seq<TypeSpec>, k: nat, j: nat, bound: nat, now: PassState)
    requires At(st, calls, k, bound, now) && k <= j <= |calls|
    requires forall i :: k <= i < j ==> now.graph[calls[i]].kind != KindStruct
    ensures At(st, calls, j, bound, now)
    decreases j - k
  {
    if k < j {
      VisitOther(st, calls, k, bound, now);
      SkipTo(st, calls, k + 1, j, bound, now);
    }
  }

  ghost predicate NoStructs(g: Graph, calls: seq<TypeSpec>, k: nat, j: nat) {
    forall i :: k <= i < j && i < |calls| ==> calls[i] in g && g[calls[i]].kind != KindStruct
  }

  /** The struct calls[k] is visited, and then nothing up to calls[j] that is a struct. */
  ghost predicate Visits(st: PassState, calls: seq<TypeSpec>, k: nat, j: nat, bound: nat, now: PassState, key: string) {
    && At(st, calls, k, bound, now) && k < j <= |calls| && now.graph[calls[k]].kind == KindStruct
    && key == ShapeKey(now.graph, calls[k], bound) && NoStructs(now.graph, calls, k + 1, j)
  }

  /** Its key is new. */
  lemma VisitNew(st: PassState, calls: seq<TypeSpec>, k: nat, j: nat, bound: nat, now: PassState, key: string)
    returns (next: PassState)
    requires Visits(st, calls, k, j, bound, now, key) && key !in now.canonical
    ensures At(st, calls, j, bound, next) && next == PassState(now.graph, now.canonical[key := calls[k]], now.changed)
  {
    next := now.(canonical := now.canonical[key := calls[k]]);
    NextDeduplicated(st, calls, k, bound);
    SkipTo(st, calls, k + 1, j, bound, next);
  }

  /** Its key is that of a struct of its name. */
  lemma VisitSame(st: PassState, calls: seq<TypeSpec>, k: nat, j: nat, bound: nat, now: PassState, key: string, existing: TypeSpec)
    requires Visits(st, calls, k, j, bound, now, key) && key in now.canonical && now.canonical[key] == existing
    requires IsCalled(now, existing, now.graph[calls[k]].name)
    ensures At(st, calls, j, bound, now)
  {
    NextDeduplicated(st, calls, k, bound);
    SkipTo(st, calls, k + 1, j, bound, now);
  }

  /** Its key is that of a struct of another name. */
  lemma VisitRenamed(st: PassState, calls: seq<TypeSpec>, k: nat, j: nat, bound: nat, now: PassState, key: string,
                     existing: TypeSpec, name: string)
    returns (next: PassState)
    requires Visits(st, calls, k, j, bound, now, key) && key in now.canonical && now.canonical[key] == existing
    requires IsCalled(now, existing, name) && now.graph[calls[k]].name != name
    ensures At(st, calls, j, bound, next)
    ensures next == PassState(now.graph[calls[k] := now.graph[calls[k]].(name := name)], now.canonical, true)
  {
    next := PassState(now.graph[calls[k] := now.graph[calls[k]].(name := name)], now.canonical, true);
    NextDeduplicated(st, calls, k, bound);
    SkipTo(st, calls, k + 1, j, bound, next);
  }

  /** The next state of a run, which has changed something unless it is the last one. */
  lemma StateAfter(states: seq<PassState>, calls: seq<TypeSpec>, bound: nat, i: nat)
    requires Passes(states, calls, bound) && i + 1 < |states|
    ensures ValidState(states[i], bound) && ValidState(states[i].(changed := false), bound)
    ensures forall n <- calls :: n in states[i].graph
    ensures states[i + 1] == PassOver(states[i].(changed := false), calls, bound)
    ensures i + 2 < |states| ==> states[i + 1].changed
  {
    assert StateOf(states, i, calls, bound) && StateOf(states, i + 1, calls, bound);
  }

  lemma EndsAt(states: seq<PassState>, calls: seq<TypeSpec>, bound: nat, k: nat)
    requires Passes(states, calls, bound) && 0 < k < |states| && !states[k].changed
    ensures |states| == k + 1 && Ended(states)
  {
    assert StateOf(states, k, calls, bound);
  }

  // ---------- keys ----------

  lemma NextKey(g: Graph, fields: seq<FieldSpec>, f: FieldSpec, bound: nat)
    requires (forall h <- fields :: Ends(g, h.typ, bound)) && Ends(g, f.typ, bound)
    ensures forall h <- fields + [f] :: Ends(g, h.typ, bound)
    ensures FieldsKey(g, fields + [f], bound) == FieldsKey(g, fields, bound) + f.name + ":" + TypeTag(g, f.typ, bound) + ";"
  {
    assert (fields + [f])[..|fields|] == fields;
  }

  lemma KeyOfOne(g: Graph, n: TypeSpec, f: FieldSpec, bound: nat)
    requires Taggable(g, bound) && n in g && g[n].kind == KindStruct && g[n].fields == [f]
    ensures f.typ in g && Ends(g, f.typ, bound)
    ensures ShapeKey(g, n, bound) == f.name + ":" + TypeTag(g, f.typ, bound) + ";"
  {
    FieldTypesInside(g, n);
    assert f in g[n].fields && [] + [f] == [f] && "" + f.name == f.name;
    NextKey(g, [], f, bound);
  }

  lemma KeyOfTwo(g: Graph, n: TypeSpec, f0: FieldSpec, f1: FieldSpec, bound: nat)
    requires Taggable(g, bound) && n in g && g[n].kind == KindStruct && g[n].fields == [f0, f1]
    ensures f0.typ in g && Ends(g, f0.typ, bound) && f1.typ in g && Ends(g, f1.typ, bound)
    ensures ShapeKey(g, n, bound) == f0.name + ":" + TypeTag(g, f0.typ, bound) + ";"
                                     + f1.name + ":" + TypeTag(g, f1.typ, bound) + ";"
  {
    FieldTypesInside(g, n);
    assert f0 in g[n].fields && f1 in g[n].fields;
    assert [] + [f0] == [f0] && [f0] + [f1] == [f0, f1] && "" + f0.name == f0.name;
    NextKey(g, [], f0, bound);
    NextKey(g, [f0], f1, bound);
  }

  lemma KeyOfThree(g: Graph, n: TypeSpec, f0: FieldSpec, f1: FieldSpec, f2: FieldSpec, bound: nat)
    requires Taggable(g, bound) && n in g && g[n].kind == KindStruct && g[n].fields == [f0, f1, f2]
    ensures f0.typ in g && Ends(g, f0.typ, bound) && f1.typ in g && Ends(g, f1.typ, bound) && f2.typ in g && Ends(g, f2.typ, bound)
    ensures ShapeKey(g, n, bound) == f0.name + ":" + TypeTag(g, f0.typ, bound) + ";"
                                     + f1.name + ":" + TypeTag(g, f1.typ, bound) + ";"
                                     + f2.name + ":" + TypeTag(g, f2.typ, bound) + ";"
  {
    FieldTypesInside(g, n);
    assert f0 in g[n].fields && f1 in g[n].fields && f2 in g[n].fields;
    assert [] + [f0] == [f0] && [f0] + [f1] == [f0, f1] && [f0, f1] + [f2] == [f0, f1, f2] && "" + f0.name == f0.name;
    NextKey(g, [], f0, bound);
    NextKey(g, [f0], f1, bound);
    NextKey(g, [f0, f1], f2, bound);
  }

  lemma StructListTag(g: Graph, l: TypeSpec, e: TypeSpec, bound: nat)
    requires Ends(g, l, bound) && IsSlice(g, l, e) && e in g && g[e].kind == KindStruct
    ensures TypeTag(g, l, bound) == "[]" + ("@" + g[e].name)
  {
  }

  // ---------- the collapsing pass ----------

  /** The struct calls[k], and then nothing up to calls[j] that is a struct. */
  lemma {:induction false} StructsUpTo(g: Graph, calls: seq<TypeSpec>, k: nat, j: nat, before: seq<TypeSpec>)
    requires k < j <= |calls| && calls[k] in g && g[calls[k]].kind == KindStruct && NoStructs(g, calls, k + 1, j)
    requires Collapse.StructsAmong(g, calls[..k]) == before
    ensures Collapse.StructsAmong(g, calls[..j]) == before + [calls[k]]
    decreases j
  {
    assert calls[..j][..j - 1] == calls[..j - 1];
    if j - 1 > k {
      StructsUpTo(g, calls, k, j - 1, before);
    }
  }

  lemma NoSteps(g: Graph, steps: seq<Collapse.Step>, last: Graph, all: seq<TypeSpec>, same: Collapse.Oracle)
    requires Collapse.IsRun(g, steps, last, all, same) && Collapse.AllRejected(g, all, same)
    ensures steps == [] && last == g
  {
    if steps != [] {
      assert false;
    }
  }

  /** A run that has nothing to collapse is complete. */
  lemma NothingToCollapse(r: Run, root: TypeSpec, union: Shape, all: seq<TypeSpec>)
    requires Prepared(r, root, union) && Ended(r.states)
    requires Collapse.AreStructs(Last(r.states).graph, root, all)
    requires Collapse.AllRejected(Last(r.states).graph, all, Collapse.Source())
    ensures Finished(r.(all := all, steps := [], last := Last(r.states).graph, row := 0), root, union)
  {
  }

  lemma StructsCollected(g: Graph, root: TypeSpec)
    ensures Collapse.AreStructs(g, root, Collapse.StructsAmong(g, Walk(g, root, {})))
  {
    WalkFresh(g, root, {});
    Collapse.StructsAmongDistinct(g, Walk(g, root, {}));
  }

  /** A first renaming pass takes no name from the root. */
  lemma FirstPassKeeps(g: Graph, root: TypeSpec, bound: nat)
    requires Taggable(g, bound) && root in g
    ensures KeepsName(PassState(g, map[], false), root, bound)
  {
  }

  /** And without a step no collapse does. */
  lemma KeptByOnePass(r: Run, root: TypeSpec, union: Shape)
    requires Prepared(r, root, union) && r.steps == [] && |r.states| == 2
    ensures Careful(r) && RootKept(r, root, union)
  {
    ResolvedStage(r, root, union);
    var st := PassState(r.resolved, map[], false);
    assert r.states[0] == st;
    FirstPassKeeps(r.resolved, root, Bound(union));
    OneState(r.states, st, root, Bound(union));
  }

  lemma OneState(states: seq<PassState>, st: PassState, root: TypeSpec, bound: nat)
    requires |states| == 2 && states[0] == st && KeepsName(st, root, bound)
    ensures forall i :: 0 <= i < |states| - 1 ==> KeepsName(states[i], root, bound)
  {
  }
}
