/** A document after which the root is no longer called Config: a renaming pass takes its key for that
    of another struct. */
module LostRoot {
  import opened Wrappers
  import opened TypeGraph
  import opened Trees
  import opened Naming
  import opened GraphSameShape
  import opened Shapes
  import Infer
  import Resolve
  import Collapse
  import Emit
  import opened Finalize
  import opened SmallDocuments

  // s: {s: {m: 1}, items: [{k: 1}]}
  // items: [{k: 2}]
  const K_DOC := MappingDoc([Pair("k", ONE)])
  const M_DOC := MappingDoc([Pair("m", ONE)])
  const INNER_DOC := MappingDoc([Pair("s", M_DOC), Pair("items", SequenceDoc([K_DOC]))])
  const NESTED_DOC := MappingDoc([Pair("s", INNER_DOC), Pair("items", SequenceDoc([K_DOC]))])

  const K := Struct([Field("k", INT)])
  const M := Struct([Field("m", INT)])
  const INNER := Struct([Field("s", M), Field("items", Slice(Some(K)))])
  const NESTED := Struct([Field("s", INNER), Field("items", Slice(Some(K)))])

  lemma NestedInferred()
    ensures Infer.UnionThemes([Some(NESTED_DOC)]) == Success(Some(NESTED))
  {
    OneEntry("k", ONE, INT);
    OneEntry("m", ONE, INT);
    OneItem(K_DOC, K);
    TwoEntries("s", M_DOC, M, "items", SequenceDoc([K_DOC]), Slice(Some(K)));
    TwoEntries("s", INNER_DOC, INNER, "items", SequenceDoc([K_DOC]), Slice(Some(K)));
    OneTheme(NESTED_DOC, NESTED);
  }

  /** The nodes in visiting order; the names of the root and of its item are given. */
  ghost predicate Nested(g: Graph, ns: seq<TypeSpec>, rootName: string, itemName: string) {
    && |ns| == 10 && Distinct(ns)
    && IsStruct(g, ns[0], rootName, [FieldSpec("s", ns[1]), FieldSpec("items", ns[7])])
    && IsStruct(g, ns[1], "s", [FieldSpec("s", ns[2]), FieldSpec("items", ns[4])])
    && IsStruct(g, ns[2], "s", [FieldSpec("m", ns[3])]) && IsScalar(g, ns[3], "int")
    && IsSlice(g, ns[4], ns[5]) && IsStruct(g, ns[5], "sitem", [FieldSpec("k", ns[6])]) && IsScalar(g, ns[6], "int")
    && IsSlice(g, ns[7], ns[8]) && IsStruct(g, ns[8], itemName, [FieldSpec("k", ns[9])]) && IsScalar(g, ns[9], "int")
  }

  lemma ListParts(g: Graph, n: TypeSpec, list: Field, k: Field, parent: string) returns (x: TypeSpec, t: TypeSpec)
    requires list.shape == Slice(Some(Struct([k]))) && k.shape == Scalar("int")
    requires Represents(g, n, list.shape) && ChildNamed(g, n, list, parent)
    ensures IsSlice(g, n, x) && IsStruct(g, x, ElementName(parent, list.name), [FieldSpec(k.name, t)]) && IsScalar(g, t, "int")
    ensures PreOrder(g, n, list.shape) == [n, x, t]
  {
    x := StructList(g, n, list, Struct([k]), parent);
    t := StructOfOne(g, x, k, ElementName(parent, list.name));
  }

  lemma InnerParts(g: Graph, n: TypeSpec, s: Field, list: Field, k: Field, m: Field, parent: string)
    returns (b: TypeSpec, t: TypeSpec, c: TypeSpec, x: TypeSpec, u: TypeSpec)
    requires s.shape == Struct([m]) && m.shape == Scalar("int") && list.shape == Slice(Some(Struct([k]))) && k.shape == Scalar("int")
    requires Part(g, n, Struct([s, list]), parent)
    ensures IsStruct(g, n, g[n].name, [FieldSpec(s.name, b), FieldSpec(list.name, c)])
    ensures IsStruct(g, b, s.name, [FieldSpec(m.name, t)]) && IsScalar(g, t, "int")
    ensures IsSlice(g, c, x) && IsStruct(g, x, ElementName(parent, list.name), [FieldSpec(k.name, u)]) && IsScalar(g, u, "int")
    ensures PreOrder(g, n, Struct([s, list])) == [n, b, t, c, x, u]
  {
    b, c := StructOfTwo(g, n, s, list, parent);
    StructUnder(g, b, s, parent);
    t := StructOfOne(g, b, m, s.name);
    x, u := ListParts(g, c, list, k, parent);
  }

  lemma NestedParts(g: Graph, root: TypeSpec, s: Field, list: Field, inner: Field, k: Field, m: Field) returns (ns: seq<TypeSpec>)
    requires s == Field("s", Struct([inner, list])) && inner == Field("s", Struct([m])) && m == Field("m", Scalar("int"))
    requires list == Field("items", Slice(Some(Struct([k])))) && k == Field("k", Scalar("int"))
    requires Part(g, root, Struct([s, list]), "") && g[root].name == "Config"
    requires Distinct(PreOrder(g, root, Struct([s, list])))
    ensures ns == PreOrder(g, root, Struct([s, list])) && Nested(g, ns, "Config", "itemsitem")
  {
    var a, d := StructOfTwo(g, root, s, list, "");
    StructUnder(g, a, s, "");
    var b, t, c, x, u := InnerParts(g, a, inner, list, k, m, "s");
    var y, v := ListParts(g, d, list, k, "");
    ns := [root, a, b, t, c, x, u, d, y, v];
  }

  lemma NestedNamed(built: Graph, g: Graph, root: TypeSpec) returns (ns: seq<TypeSpec>)
    requires IsBuilt(built, root, NESTED) && IsNamed(built, g, root, NESTED)
    ensures ns == Walk(g, root, {}) && Nested(g, ns, "Config", "itemsitem")
  {
    TreeNodes(built, g, root, NESTED);
    ns := NestedParts(g, root, NESTED.fields[0], NESTED.fields[1], INNER.fields[0], K.fields[0], M.fields[0]);
  }

  lemma NestedNothing(g: Graph, ns: seq<TypeSpec>)
    requires Nested(g, ns, "Config", "itemsitem") && g.Keys == Set(ns)
    ensures NothingToFill(g)
  {
    forall n <- g
      ensures g[n].kind != KindNull
      ensures g[n].kind == KindStruct ==> forall f <- g[n].fields :: f.typ in g && (g[f.typ].kind == KindSlice ==> g[f.typ].element != null)
    {
      var i :| 0 <= i < |ns| && ns[i] == n;
    }
  }

  lemma NestedInside(g: Graph, ns: seq<TypeSpec>, rootName: string, itemName: string)
    requires Nested(g, ns, rootName, itemName)
    ensures forall n <- ns :: n in g
  {
    assert forall i :: 0 <= i < 10 ==> ns[i] in g;
  }

  lemma NestedResolved(g0: Graph, g: Graph, candidates: map<string, TypeSpec>, ns: seq<TypeSpec>)
    requires Resolve.Grown(g0, g, candidates) && NothingToFill(g0) && Nested(g0, ns, "Config", "itemsitem")
    ensures Nested(g, ns, "Config", "itemsitem")
  {
    NestedInside(g0, ns, "Config", "itemsitem");
    NodesUnfilled(g0, g, candidates, ns);
    assert NodeSame(g0, g, ns[0]) && NodeSame(g0, g, ns[1]) && NodeSame(g0, g, ns[2]) && NodeSame(g0, g, ns[3]);
    assert NodeSame(g0, g, ns[4]) && NodeSame(g0, g, ns[5]) && NodeSame(g0, g, ns[6]);
    assert NodeSame(g0, g, ns[7]) && NodeSame(g0, g, ns[8]) && NodeSame(g0, g, ns[9]);
  }

  // The keys: of the root and of s, of an item, of what has field m.

  ghost function PairKey(item: string): (r: string)
    ensures |r| == |item| + 15 && r[0] == 's'
  {
    "s" + ":" + ("@" + "s") + ";" + "items" + ":" + ("[]" + ("@" + item)) + ";"
  }

  ghost function LeafKey(name: string): (r: string)
    requires name != ""
    ensures r != "" && r[0] == name[0]
  {
    name + ":" + ("s:" + "int") + ";"
  }

  lemma LeafKeyOf(g: Graph, n: TypeSpec, f: FieldSpec, bound: nat)
    requires Taggable(g, bound) && f.name != "" && n in g && IsStruct(g, n, g[n].name, [f]) && IsScalar(g, f.typ, "int")
    ensures ShapeKey(g, n, bound) == LeafKey(f.name)
  {
    KeyOfOne(g, n, f, bound);
  }

  lemma PairKeyOf(g: Graph, n: TypeSpec, a: TypeSpec, l: TypeSpec, e: TypeSpec, bound: nat)
    requires Taggable(g, bound) && n in g && IsStruct(g, n, g[n].name, [FieldSpec("s", a), FieldSpec("items", l)])
    requires a in g && g[a].kind == KindStruct && g[a].name == "s"
    requires IsSlice(g, l, e) && e in g && g[e].kind == KindStruct
    ensures ShapeKey(g, n, bound) == PairKey(g[e].name)
  {
    KeyOfTwo(g, n, FieldSpec("s", a), FieldSpec("items", l), bound);
    StructListTag(g, l, e, bound);
  }

  lemma NestedKeys(g: Graph, ns: seq<TypeSpec>, rootName: string, itemName: string, bound: nat)
    requires Nested(g, ns, rootName, itemName) && Taggable(g, bound)
    ensures ShapeKey(g, ns[0], bound) == PairKey(itemName) && ShapeKey(g, ns[1], bound) == PairKey("sitem")
    ensures ShapeKey(g, ns[2], bound) == LeafKey("m")
    ensures ShapeKey(g, ns[5], bound) == LeafKey("k") && ShapeKey(g, ns[8], bound) == LeafKey("k")
  {
    PairKeyOf(g, ns[0], ns[1], ns[7], ns[8], bound);
    PairKeyOf(g, ns[1], ns[2], ns[4], ns[5], bound);
    LeafKeyOf(g, ns[2], FieldSpec("m", ns[3]), bound);
    LeafKeyOf(g, ns[5], FieldSpec("k", ns[6]), bound);
    LeafKeyOf(g, ns[8], FieldSpec("k", ns[9]), bound);
  }

  lemma KeysDiffer()
    ensures LeafKey("m") != LeafKey("k")
    ensures forall item :: PairKey(item) != LeafKey("m") && PairKey(item) != LeafKey("k")
    ensures PairKey("itemsitem") != PairKey("sitem")
  {
  }

  lemma NestedShape(g: Graph, ns: seq<TypeSpec>, rootName: string, itemName: string)
    requires Nested(g, ns, rootName, itemName)
    ensures forall i :: 0 <= i < 10 ==> ns[i] in g
    ensures forall i <- [0, 1, 2, 5, 8] :: g[ns[i]].kind == KindStruct
    ensures NoStructs(g, ns, 1, 1) && NoStructs(g, ns, 2, 2) && NoStructs(g, ns, 3, 5)
    ensures NoStructs(g, ns, 6, 8) && NoStructs(g, ns, 9, 10)
  {
  }

  /** What the canonical structs are after the first pass. */
  ghost predicate NestedCanonical(canonical: map<string, TypeSpec>, ns: seq<TypeSpec>) {
    && |ns| == 10
    && PairKey("sitem") in canonical && canonical[PairKey("sitem")] == ns[1]
    && LeafKey("m") in canonical && canonical[LeafKey("m")] == ns[2]
    && LeafKey("k") in canonical && canonical[LeafKey("k")] == ns[5]
  }

  ghost function NestedStored(ns: seq<TypeSpec>): map<string, TypeSpec>
    requires |ns| == 10
  {
    map[][PairKey("itemsitem") := ns[0]][PairKey("sitem") := ns[1]][LeafKey("m") := ns[2]][LeafKey("k") := ns[5]]
  }

  lemma StoredIsCanonical(ns: seq<TypeSpec>)
    requires |ns| == 10
    ensures NestedCanonical(NestedStored(ns), ns)
  {
    KeysDiffer();
  }

  lemma ItemRenamed(g: Graph, ns: seq<TypeSpec>)
    requires Nested(g, ns, "Config", "itemsitem")
    ensures Nested(g[ns[8] := g[ns[8]].(name := "sitem")], ns, "Config", "sitem")
  {
  }

  lemma NestedNewKeys(g: Graph, ns: seq<TypeSpec>, bound: nat, st: PassState) returns (r: PassState)
    requires Nested(g, ns, "Config", "itemsitem") && Taggable(g, bound) && forall n <- ns :: n in g
    requires st == PassState(g, map[], false)
    ensures At(st, ns, 8, bound, r) && r == PassState(g, NestedStored(ns), false)
  {
    NestedShape(g, ns, "Config", "itemsitem");
    NestedKeys(g, ns, "Config", "itemsitem", bound);
    KeysDiffer();
    Begin(st, ns, bound);
    var s0 := VisitNew(st, ns, 0, 1, bound, st, PairKey("itemsitem"));
    var s1 := VisitNew(st, ns, 1, 2, bound, s0, PairKey("sitem"));
    var s2 := VisitNew(st, ns, 2, 5, bound, s1, LeafKey("m"));
    r := VisitNew(st, ns, 5, 8, bound, s2, LeafKey("k"));
  }

  /** The first pass gives the root's item the name of the other one. */
  lemma FirstPass(g: Graph, ns: seq<TypeSpec>, bound: nat) returns (r: PassState)
    requires Nested(g, ns, "Config", "itemsitem") && Taggable(g, bound) && forall n <- ns :: n in g
    ensures r == PassOver(PassState(g, map[], false), ns, bound)
    ensures r.changed && Nested(r.graph, ns, "Config", "sitem") && NestedCanonical(r.canonical, ns)
  {
    var st := PassState(g, map[], false);
    var s5 := NestedNewKeys(g, ns, bound, st);
    NestedShape(g, ns, "Config", "itemsitem");
    NestedKeys(g, ns, "Config", "itemsitem", bound);
    StoredIsCanonical(ns);
    ItemRenamed(g, ns);
    r := VisitRenamed(st, ns, 8, 10, bound, s5, LeafKey("k"), ns[5], "sitem");
    Finish(st, ns, bound, r);
  }

  /** After the root a pass finds nothing more to do. */
  lemma NestedRest(st: PassState, ns: seq<TypeSpec>, bound: nat, now: PassState, rootName: string)
    requires At(st, ns, 1, bound, now) && Nested(now.graph, ns, rootName, "sitem") && NestedCanonical(now.canonical, ns)
    ensures At(st, ns, 10, bound, now)
  {
    NestedShape(now.graph, ns, rootName, "sitem");
    NestedKeys(now.graph, ns, rootName, "sitem", bound);
    VisitSame(st, ns, 1, 2, bound, now, PairKey("sitem"), ns[1]);
    VisitSame(st, ns, 2, 5, bound, now, LeafKey("m"), ns[2]);
    VisitSame(st, ns, 5, 8, bound, now, LeafKey("k"), ns[5]);
    VisitSame(st, ns, 8, 10, bound, now, LeafKey("k"), ns[5]);
  }

  /** From then on the root has the key of s, and the second pass renames the root. */
  lemma SecondPass(st: PassState, ns: seq<TypeSpec>, bound: nat) returns (r: PassState)
    requires ValidState(st, bound) && !st.changed && forall n <- ns :: n in st.graph
    requires Nested(st.graph, ns, "Config", "sitem") && NestedCanonical(st.canonical, ns)
    ensures r == PassOver(st, ns, bound)
    ensures r.changed && Nested(r.graph, ns, "s", "sitem") && NestedCanonical(r.canonical, ns)
  {
    NestedShape(st.graph, ns, "Config", "sitem");
    NestedKeys(st.graph, ns, "Config", "sitem", bound);
    Begin(st, ns, bound);
    r := VisitRenamed(st, ns, 0, 1, bound, st, PairKey("sitem"), ns[1], "s");
    NestedRest(st, ns, bound, r, "s");
    Finish(st, ns, bound, r);
  }

  lemma ThirdPass(st: PassState, ns: seq<TypeSpec>, bound: nat)
    requires ValidState(st, bound) && !st.changed && forall n <- ns :: n in st.graph
    requires Nested(st.graph, ns, "s", "sitem") && NestedCanonical(st.canonical, ns)
    ensures PassOver(st, ns, bound) == st
  {
    NestedShape(st.graph, ns, "s", "sitem");
    NestedKeys(st.graph, ns, "s", "sitem", bound);
    Begin(st, ns, bound);
    VisitSame(st, ns, 0, 1, bound, st, PairKey("sitem"), ns[1]);
    NestedRest(st, ns, bound, st, "s");
    Finish(st, ns, bound, st);
  }

  ghost predicate IsState(states: seq<PassState>, i: nat, ns: seq<TypeSpec>, rootName: string) {
    && i < |states| && Nested(states[i].graph, ns, rootName, "sitem") && NestedCanonical(states[i].canonical, ns)
  }

  lemma AfterFirst(states: seq<PassState>, g: Graph, ns: seq<TypeSpec>, bound: nat)
    requires Nested(g, ns, "Config", "itemsitem") && Taggable(g, bound)
    requires |states| > 1 && states[0] == PassState(g, map[], false) && Passes(states, ns, bound)
    ensures states[1].changed && IsState(states, 1, ns, "Config")
  {
    StateAfter(states, ns, bound, 0);
    var r := FirstPass(g, ns, bound);
  }

  lemma AfterSecond(states: seq<PassState>, ns: seq<TypeSpec>, bound: nat)
    requires Passes(states, ns, bound) && |states| > 2 && IsState(states, 1, ns, "Config")
    ensures states[2].changed && IsState(states, 2, ns, "s")
  {
    StateAfter(states, ns, bound, 1);
    var r := SecondPass(states[1].(changed := false), ns, bound);
  }

  lemma AfterThird(states: seq<PassState>, ns: seq<TypeSpec>, bound: nat)
    requires Passes(states, ns, bound) && |states| > 3 && IsState(states, 2, ns, "s")
    ensures !states[3].changed && IsState(states, 3, ns, "s")
  {
    StateAfter(states, ns, bound, 2);
    ThirdPass(states[2].(changed := false), ns, bound);
  }

  /** Exactly three passes are made. */
  lemma NestedStates(states: seq<PassState>, g: Graph, ns: seq<TypeSpec>, bound: nat)
    requires Nested(g, ns, "Config", "itemsitem") && Taggable(g, bound)
    requires states != [] && states[0] == PassState(g, map[], false) && Passes(states, ns, bound)
    requires Ended(states) || |states| > 3
    ensures Ended(states) && |states| == 4 && Nested(Last(states).graph, ns, "s", "sitem")
  {
    AfterFirst(states, g, ns, bound);
    AfterSecond(states, ns, bound);
    AfterThird(states, ns, bound);
    EndsAt(states, ns, bound, 3);
  }

  lemma NestedStructs(g: Graph, root: TypeSpec, ns: seq<TypeSpec>, all: seq<TypeSpec>)
    requires Nested(g, ns, "s", "sitem") && Closed(g) && ns == Walk(g, root, {}) && Collapse.AreStructs(g, root, all)
    ensures forall n <- all :: n in {ns[0], ns[1], ns[2], ns[5], ns[8]}
  {
    forall n <- all
      ensures n in {ns[0], ns[1], ns[2], ns[5], ns[8]}
    {
      Collapse.StructsAmongExact(g, ns, n);
      var i :| 0 <= i < |ns| && ns[i] == n;
    }
  }

  /** No struct is a subset of a larger one of another name. */
  lemma NestedNoStep(g: Graph, root: TypeSpec, ns: seq<TypeSpec>, all: seq<TypeSpec>, same: Collapse.Oracle)
    requires Nested(g, ns, "s", "sitem") && Closed(g) && ns == Walk(g, root, {}) && Collapse.AreStructs(g, root, all)
    ensures Collapse.AllRejected(g, all, same)
  {
    NestedStructs(g, root, ns, all);
    forall small <- all, large <- all
      ensures Collapse.Rejected(g, small, large, same)
    {
      if Collapse.Eligible(g, small, large) {
        assert LastType(g[large].fields, "k") == null;
      }
    }
  }

  /** Where the run stands before collapseSubsetStructs. */
  lemma NestedPrepared(r: Run, root: TypeSpec) returns (ns: seq<TypeSpec>)
    requires Prepared(r, root, NESTED) && (Ended(r.states) || |r.states| > 3)
    ensures Ended(r.states) && |r.states| == 4
    ensures var g := Last(r.states).graph;
            Nested(g, ns, "s", "sitem") && Closed(g) && ns == Walk(g, root, {}) && root == ns[0]
  {
    ns := NestedNamed(r.built, r.named, root);
    TreeNodes(r.built, r.named, root, NESTED);
    NestedNothing(r.named, ns);
    var candidates := Resolve.Candidates(r.named, Walk(r.named, root, {}));
    NestedResolved(r.named, r.resolved, candidates, ns);
    WalkUnfilled(r.named, r.resolved, candidates, root);
    ResolvedStage(r, root, NESTED);
    NestedStates(r.states, r.resolved, ns, Bound(NESTED));
    RenamedStage(r, root, NESTED);
    RenamedWalk(r.resolved, Last(r.states).graph, root);
  }

  /** On this document finalize returns: three renaming passes suffice, and the collapsing pass finds
      nothing to do. */
  lemma NestedReturns(r: Run, root: TypeSpec) returns (r': Run)
    requires Prepared(r, root, NESTED) && |r.states| > 3
    ensures Ended(r.states) && Finished(r', root, NESTED) && r'.states == r.states
  {
    var ns := NestedPrepared(r, root);
    var g := Last(r.states).graph;
    var all := Collapse.StructsAmong(g, ns);
    StructsCollected(g, root);
    NestedNoStep(g, root, ns, all, Collapse.Source());
    NothingToCollapse(r, root, NESTED, all);
    r' := r.(all := all, steps := [], last := g, row := 0);
  }

  lemma NestedEmission(g: Graph, root: TypeSpec, ns: seq<TypeSpec>)
    requires Nested(g, ns, "s", "sitem") && Closed(g) && ns == Walk(g, root, {}) && root == ns[0]
    ensures "Config" !in Emit.TypeNames(Emit.Ordered(Emit.Emission(g, root)))
  {
    VisitsExactlyTheReachable(g, root);
    forall n <- g | g[n].kind == KindStruct && Reaches(g, root, n)
      ensures g[n].name != "Config"
    {
      var i :| 0 <= i < |ns| && ns[i] == n;
    }
    Emit.EmittedOrder(g, root);
  }

  /** And then the root is called s, and no type called Config is written, although the generated
      file declares a variable of that type. */
  lemma RootLosesItsName(r: Run, root: TypeSpec)
    requires Finished(r, root, NESTED)
    ensures Infer.UnionThemes([Some(NESTED_DOC)]) == Success(Some(NESTED))
    ensures !RootKept(r, root, NESTED) && root in r.last && r.last[root].name == "s"
    ensures "Config" !in Emit.TypeNames(Emit.Ordered(Emit.Emission(r.last, root)))
  {
    NestedInferred();
    var ns := NestedPrepared(r, root);
    NestedNoStep(Last(r.states).graph, root, ns, r.all, Collapse.Source());
    NoSteps(Last(r.states).graph, r.steps, r.last, r.all, Collapse.Source());
    RootKeptExactly(r, root, NESTED);
    NestedEmission(r.last, root, ns);
  }
}
