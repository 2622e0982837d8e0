/** A document that neither the finished graph admits nor the written types read: an unknown element
    is equated with two known ones in turn. */
module LostTheme {
  import opened Wrappers
  import opened TypeGraph
  import opened Trees
  import opened Naming
  import opened GraphSameShape
  import opened Shapes
  import Infer
  import Resolve
  import Collapse
  import Reading
  import opened Finalize
  import opened SmallDocuments

  // a: {x: [["s"]]}
  // b: {x: [[]], y: 1}
  // c: {x: [[1]], y: 1, z: 1}
  const TEXTS := SequenceDoc([SequenceDoc([ScalarDoc(StringNode)])])
  const A_DOC := MappingDoc([Pair("x", TEXTS)])
  const B_DOC := MappingDoc([Pair("x", SequenceDoc([SequenceDoc([])])), Pair("y", ONE)])
  const C_DOC := MappingDoc([Pair("x", SequenceDoc([SequenceDoc([ONE])])), Pair("y", ONE), Pair("z", ONE)])
  const LISTS_DOC := MappingDoc([Pair("a", A_DOC), Pair("b", B_DOC), Pair("c", C_DOC)])

  function ListOf(element: Shape): Field {
    Field("x", Slice(Some(element)))
  }

  const A := Struct([ListOf(Slice(Some(Scalar("string"))))])
  const B := Struct([ListOf(Slice(None)), Field("y", INT)])
  const C := Struct([ListOf(Slice(Some(INT))), Field("y", INT), Field("z", INT)])
  const LISTS := Struct([Field("a", A), Field("b", B), Field("c", C)])

  lemma ListsFieldsInferred()
    ensures Infer.InferNode(A_DOC) == Success(A) && Infer.InferNode(B_DOC) == Success(B) && Infer.InferNode(C_DOC) == Success(C)
  {
    OneItem(ScalarDoc(StringNode), Scalar("string"));
    OneItem(SequenceDoc([ScalarDoc(StringNode)]), Slice(Some(Scalar("string"))));
    OneItem(SequenceDoc([]), Slice(None));
    OneItem(ONE, INT);
    OneItem(SequenceDoc([ONE]), Slice(Some(INT)));
    OneEntry("x", TEXTS, Slice(Some(Slice(Some(Scalar("string"))))));
    TwoEntries("x", SequenceDoc([SequenceDoc([])]), Slice(Some(Slice(None))), "y", ONE, INT);
    ThreeEntries("x", SequenceDoc([SequenceDoc([ONE])]), Slice(Some(Slice(Some(INT)))), "y", ONE, INT, "z", ONE, INT);
  }

  lemma ListsUnique()
    ensures UniqueNames(A) && UniqueNames(B) && UniqueNames(C)
  {
  }

  /** A document of three parts. */
  lemma ThreeParts(d: Doc, s: Shape, d': Doc, s': Shape, d'': Doc, s'': Shape)
    requires Infer.InferNode(d) == Success(s) && Infer.InferNode(d') == Success(s') && Infer.InferNode(d'') == Success(s'')
    requires UniqueNames(s) && UniqueNames(s') && UniqueNames(s'')
    ensures Infer.UnionThemes([Some(MappingDoc([Pair("a", d), Pair("b", d'), Pair("c", d'')]))]) ==
            Success(Some(Struct([Field("a", s), Field("b", s'), Field("c", s'')])))
  {
    ThreeEntries("a", d, s, "b", d', s', "c", d'', s'');
    OneTheme(MappingDoc([Pair("a", d), Pair("b", d'), Pair("c", d'')]), Struct([Field("a", s), Field("b", s'), Field("c", s'')]));
  }

  lemma ListsInferred()
    ensures Infer.UnionThemes([Some(LISTS_DOC)]) == Success(Some(LISTS))
  {
    ListsFieldsInferred();
    ListsUnique();
    ThreeParts(A_DOC, A, B_DOC, B, C_DOC, C);
  }

  // The nodes in visiting order, and the fields a, b and c begin with.

  ghost function FieldsOfA(ns: seq<TypeSpec>): seq<FieldSpec>
    requires |ns| == 15
  {
    [FieldSpec("x", ns[2])]
  }

  ghost function FieldsOfB(ns: seq<TypeSpec>): seq<FieldSpec>
    requires |ns| == 15
  {
    [FieldSpec("x", ns[6]), FieldSpec("y", ns[8])]
  }

  ghost function FieldsOfC(ns: seq<TypeSpec>): seq<FieldSpec>
    requires |ns| == 15
  {
    [FieldSpec("x", ns[10]), FieldSpec("y", ns[13]), FieldSpec("z", ns[14])]
  }

  /** The lists and scalars, which no pass changes. */
  ghost predicate Leaves(g: Graph, ns: seq<TypeSpec>) {
    && |ns| == 15 && Distinct(ns)
    && IsSlice(g, ns[2], ns[3]) && IsSlice(g, ns[3], ns[4]) && IsScalar(g, ns[4], "string")
    && IsSlice(g, ns[6], ns[7]) && IsSlice(g, ns[7], null) && IsScalar(g, ns[8], "int")
    && IsSlice(g, ns[10], ns[11]) && IsSlice(g, ns[11], ns[12]) && IsScalar(g, ns[12], "int")
    && IsScalar(g, ns[13], "int") && IsScalar(g, ns[14], "int")
  }

  /** The structs, of which a and b change. */
  ghost predicate Lists(g: Graph, ns: seq<TypeSpec>, a: string, ofA: seq<FieldSpec>, b: string, ofB: seq<FieldSpec>) {
    && Leaves(g, ns)
    && IsStruct(g, ns[0], "Config", [FieldSpec("a", ns[1]), FieldSpec("b", ns[5]), FieldSpec("c", ns[9])])
    && IsStruct(g, ns[1], a, ofA) && IsStruct(g, ns[5], b, ofB) && IsStruct(g, ns[9], "c", FieldsOfC(ns))
  }

  lemma PartsOfList(g: Graph, n: TypeSpec, e: Shape, leaf: Shape) returns (l: TypeSpec, t: TypeSpec)
    requires Represents(g, n, ListOf(e).shape) && e == Slice(Some(leaf)) && leaf.Scalar?
    ensures IsSlice(g, n, l) && IsSlice(g, l, t) && IsScalar(g, t, leaf.scalar) && PreOrder(g, n, ListOf(e).shape) == [n, l, t]
  {
    l := SliceOf(g, n, e);
    t := SliceOf(g, l, leaf);
  }

  lemma PartsOfA(g: Graph, n: TypeSpec, f: Field, x: Field) returns (l: TypeSpec, j: TypeSpec, t: TypeSpec)
    requires f.shape == Struct([x]) && x == ListOf(Slice(Some(Scalar("string"))))
    requires Represents(g, n, f.shape) && ChildNamed(g, n, f, "")
    ensures IsStruct(g, n, f.name, [FieldSpec("x", l)]) && IsSlice(g, l, j) && IsSlice(g, j, t) && IsScalar(g, t, "string")
    ensures PreOrder(g, n, f.shape) == [n, l, j, t]
  {
    StructUnder(g, n, f, "");
    l := StructOfOne(g, n, x, f.name);
    j, t := PartsOfList(g, l, Slice(Some(Scalar("string"))), Scalar("string"));
  }

  lemma PartsOfB(g: Graph, n: TypeSpec, f: Field, x: Field, y: Field) returns (l: TypeSpec, j: TypeSpec, u: TypeSpec)
    requires f.shape == Struct([x, y]) && x == ListOf(Slice(None)) && y == Field("y", Scalar("int"))
    requires Represents(g, n, f.shape) && ChildNamed(g, n, f, "")
    ensures IsStruct(g, n, f.name, [FieldSpec("x", l), FieldSpec("y", u)]) && IsSlice(g, l, j) && IsSlice(g, j, null)
    ensures IsScalar(g, u, "int") && PreOrder(g, n, f.shape) == [n, l, j, u]
  {
    StructUnder(g, n, f, "");
    l, u := StructOfTwo(g, n, x, y, f.name);
    j := SliceOf(g, l, Slice(None));
  }

  lemma PartsOfC(g: Graph, n: TypeSpec, f: Field, x: Field, y: Field, z: Field)
    returns (l: TypeSpec, j: TypeSpec, t: TypeSpec, u: TypeSpec, v: TypeSpec)
    requires f.shape == Struct([x, y, z]) && x == ListOf(Slice(Some(Scalar("int"))))
    requires y == Field("y", Scalar("int")) && z == Field("z", Scalar("int"))
    requires Represents(g, n, f.shape) && ChildNamed(g, n, f, "")
    ensures IsStruct(g, n, f.name, [FieldSpec("x", l), FieldSpec("y", u), FieldSpec("z", v)])
    ensures IsSlice(g, l, j) && IsSlice(g, j, t) && IsScalar(g, t, "int") && IsScalar(g, u, "int") && IsScalar(g, v, "int")
    ensures PreOrder(g, n, f.shape) == [n, l, j, t, u, v]
  {
    StructUnder(g, n, f, "");
    l, u, v := StructOfThree(g, n, x, y, z, f.name);
    j, t := PartsOfList(g, l, Slice(Some(Scalar("int"))), Scalar("int"));
  }

  lemma ListsAssembled(g: Graph, ns: seq<TypeSpec>, a: seq<TypeSpec>, b: seq<TypeSpec>, c: seq<TypeSpec>)
    requires |ns| == 15 && Distinct(ns) && ns[1..5] == a && ns[5..9] == b && ns[9..15] == c
    requires IsStruct(g, ns[0], "Config", [FieldSpec("a", a[0]), FieldSpec("b", b[0]), FieldSpec("c", c[0])])
    requires IsStruct(g, a[0], "a", [FieldSpec("x", a[1])]) && IsSlice(g, a[1], a[2]) && IsSlice(g, a[2], a[3])
    requires IsScalar(g, a[3], "string")
    requires IsStruct(g, b[0], "b", [FieldSpec("x", b[1]), FieldSpec("y", b[3])]) && IsSlice(g, b[1], b[2])
    requires IsSlice(g, b[2], null) && IsScalar(g, b[3], "int")
    requires IsStruct(g, c[0], "c", [FieldSpec("x", c[1]), FieldSpec("y", c[4]), FieldSpec("z", c[5])])
    requires IsSlice(g, c[1], c[2]) && IsSlice(g, c[2], c[3]) && IsScalar(g, c[3], "int") && IsScalar(g, c[4], "int")
    requires IsScalar(g, c[5], "int")
    ensures Lists(g, ns, "a", FieldsOfA(ns), "b", FieldsOfB(ns))
  {
    assert a[0] == ns[1] && a[1] == ns[2] && a[2] == ns[3] && a[3] == ns[4];
    assert b[0] == ns[5] && b[1] == ns[6] && b[2] == ns[7] && b[3] == ns[8];
    assert c[0] == ns[9] && c[1] == ns[10] && c[2] == ns[11] && c[3] == ns[12] && c[4] == ns[13] && c[5] == ns[14];
  }

  lemma ListsParts(g: Graph, root: TypeSpec, a: Field, b: Field, c: Field, x: Field, x': Field, x'': Field, y: Field, z: Field)
    returns (ns: seq<TypeSpec>)
    requires a == Field("a", Struct([x])) && b == Field("b", Struct([x', y])) && c == Field("c", Struct([x'', y, z]))
    requires x == ListOf(Slice(Some(Scalar("string")))) && x' == ListOf(Slice(None)) && x'' == ListOf(Slice(Some(Scalar("int"))))
    requires y == Field("y", Scalar("int")) && z == Field("z", Scalar("int"))
    requires Part(g, root, Struct([a, b, c]), "") && g[root].name == "Config"
    requires Distinct(PreOrder(g, root, Struct([a, b, c])))
    ensures ns == PreOrder(g, root, Struct([a, b, c])) && |ns| == 15
    ensures Lists(g, ns, "a", FieldsOfA(ns), "b", FieldsOfB(ns))
  {
    var na, nb, nc := StructOfThree(g, root, a, b, c, "");
    var la, ja, sa := PartsOfA(g, na, a, x);
    var lb, jb, yb := PartsOfB(g, nb, b, x', y);
    var lc, jc, ic, yc, zc := PartsOfC(g, nc, c, x'', y, z);
    var na', nb', nc' := [na, la, ja, sa], [nb, lb, jb, yb], [nc, lc, jc, ic, yc, zc];
    ns := [root] + na' + nb' + nc';
    assert ns[1..5] == na' && ns[5..9] == nb' && ns[9..15] == nc';
    ListsAssembled(g, ns, na', nb', nc');
  }

  lemma ListsNamed(built: Graph, g: Graph, root: TypeSpec) returns (ns: seq<TypeSpec>)
    requires IsBuilt(built, root, LISTS) && IsNamed(built, g, root, LISTS)
    ensures ns == Walk(g, root, {}) && |ns| == 15 && Lists(g, ns, "a", FieldsOfA(ns), "b", FieldsOfB(ns))
  {
    TreeNodes(built, g, root, LISTS);
    ns := ListsParts(g, root, LISTS.fields[0], LISTS.fields[1], LISTS.fields[2], A.fields[0], B.fields[0], C.fields[0],
                     B.fields[1], C.fields[2]);
  }

  lemma ListsNothing(g: Graph, ns: seq<TypeSpec>)
    requires |ns| == 15 && Lists(g, ns, "a", FieldsOfA(ns), "b", FieldsOfB(ns)) && g.Keys == Set(ns)
    ensures NothingToFill(g)
  {
    forall n <- g
      ensures g[n].kind != KindNull
      ensures g[n].kind == KindStruct ==> forall f <- g[n].fields :: f.typ in g && (g[f.typ].kind == KindSlice ==> g[f.typ].element != null)
    {
      var i :| 0 <= i < |ns| && ns[i] == n;
    }
  }

  lemma ListsInside(g: Graph, ns: seq<TypeSpec>, a: string, ofA: seq<FieldSpec>, b: string, ofB: seq<FieldSpec>)
    requires Lists(g, ns, a, ofA, b, ofB)
    ensures forall n <- ns :: n in g
  {
    assert forall i :: 0 <= i < 15 ==> ns[i] in g;
  }

  lemma ListsResolved(g0: Graph, g: Graph, candidates: map<string, TypeSpec>, ns: seq<TypeSpec>)
    requires Resolve.Grown(g0, g, candidates) && NothingToFill(g0)
    requires |ns| == 15 && Lists(g0, ns, "a", FieldsOfA(ns), "b", FieldsOfB(ns))
    ensures Lists(g, ns, "a", FieldsOfA(ns), "b", FieldsOfB(ns))
  {
    ListsInside(g0, ns, "a", FieldsOfA(ns), "b", FieldsOfB(ns));
    NodesUnfilled(g0, g, candidates, ns);
    assert NodeSame(g0, g, ns[0]) && NodeSame(g0, g, ns[1]) && NodeSame(g0, g, ns[5]) && NodeSame(g0, g, ns[9]);
    assert NodeSame(g0, g, ns[2]) && NodeSame(g0, g, ns[3]) && NodeSame(g0, g, ns[4]) && NodeSame(g0, g, ns[6]);
    assert NodeSame(g0, g, ns[7]) && NodeSame(g0, g, ns[8]) && NodeSame(g0, g, ns[10]) && NodeSame(g0, g, ns[11]);
    assert NodeSame(g0, g, ns[12]) && NodeSame(g0, g, ns[13]) && NodeSame(g0, g, ns[14]);
  }

  lemma DeepTag(g: Graph, l: TypeSpec, j: TypeSpec, t: TypeSpec?, bound: nat)
    requires Ends(g, l, bound) && IsSlice(g, l, j) && IsSlice(g, j, t)
    requires t != null ==> t in g && g[t].kind == KindScalar
    ensures |TypeTag(g, l, bound)| == 4 + if t == null then 3 else 2 + |g[t].scalar|
  {
    assert Ends(g, j, bound - 1);
    if t != null {
      assert Ends(g, t, bound - 2);
      assert TypeTag(g, t, bound - 2) == "s:" + g[t].scalar;
    }
  }

  lemma ListsKeys(g: Graph, ns: seq<TypeSpec>, bound: nat)
    requires |ns| == 15 && Lists(g, ns, "a", FieldsOfA(ns), "b", FieldsOfB(ns)) && Taggable(g, bound)
    ensures |ShapeKey(g, ns[1], bound)| == 15 && ShapeKey(g, ns[1], bound)[0] == 'x'
    ensures |ShapeKey(g, ns[5], bound)| == 18 && ShapeKey(g, ns[5], bound)[0] == 'x'
    ensures |ShapeKey(g, ns[9], bound)| == 28 && ShapeKey(g, ns[9], bound)[0] == 'x'
    ensures |ShapeKey(g, ns[0], bound)| > 0 && ShapeKey(g, ns[0], bound)[0] == 'a'
  {
    KeyOfOne(g, ns[1], FieldSpec("x", ns[2]), bound);
    DeepTag(g, ns[2], ns[3], ns[4], bound);
    KeyOfTwo(g, ns[5], FieldSpec("x", ns[6]), FieldSpec("y", ns[8]), bound);
    DeepTag(g, ns[6], ns[7], null, bound);
    KeyOfThree(g, ns[9], FieldSpec("x", ns[10]), FieldSpec("y", ns[13]), FieldSpec("z", ns[14]), bound);
    DeepTag(g, ns[10], ns[11], ns[12], bound);
    KeyOfThree(g, ns[0], FieldSpec("a", ns[1]), FieldSpec("b", ns[5]), FieldSpec("c", ns[9]), bound);
  }

  lemma ListsShape(g: Graph, ns: seq<TypeSpec>, a: string, ofA: seq<FieldSpec>, b: string, ofB: seq<FieldSpec>)
    requires Lists(g, ns, a, ofA, b, ofB)
    ensures forall i :: 0 <= i < 15 ==> ns[i] in g
    ensures NoStructs(g, ns, 1, 1) && NoStructs(g, ns, 2, 5) && NoStructs(g, ns, 6, 9) && NoStructs(g, ns, 10, 15)
  {
  }

  lemma ListsPass(g: Graph, ns: seq<TypeSpec>, bound: nat)
    requires |ns| == 15 && Lists(g, ns, "a", FieldsOfA(ns), "b", FieldsOfB(ns)) && Taggable(g, bound)
    requires forall n <- ns :: n in g
    ensures !PassOver(PassState(g, map[], false), ns, bound).changed
  {
    var st := PassState(g, map[], false);
    ListsShape(g, ns, "a", FieldsOfA(ns), "b", FieldsOfB(ns));
    ListsKeys(g, ns, bound);
    Begin(st, ns, bound);
    var s0 := VisitNew(st, ns, 0, 1, bound, st, ShapeKey(g, ns[0], bound));
    var s1 := VisitNew(st, ns, 1, 5, bound, s0, ShapeKey(g, ns[1], bound));
    var s5 := VisitNew(st, ns, 5, 9, bound, s1, ShapeKey(g, ns[5], bound));
    var s9 := VisitNew(st, ns, 9, 15, bound, s5, ShapeKey(g, ns[9], bound));
    Finish(st, ns, bound, s9);
  }

  lemma ListsStates(states: seq<PassState>, g: Graph, ns: seq<TypeSpec>, bound: nat)
    requires |ns| == 15 && Lists(g, ns, "a", FieldsOfA(ns), "b", FieldsOfB(ns)) && Taggable(g, bound)
    requires |states| > 1 && states[0] == PassState(g, map[], false) && Passes(states, ns, bound)
    ensures Ended(states) && Last(states).graph == g
  {
    ListsShape(g, ns, "a", FieldsOfA(ns), "b", FieldsOfB(ns));
    StateAfter(states, ns, bound, 0);
    ListsPass(g, ns, bound);
    EndsAt(states, ns, bound, 1);
  }

  // The steps of collapseSubsetStructs.

  lemma CompareFirst(g: Graph, f: FieldSpec, rest: seq<FieldSpec>, large: seq<FieldSpec>, same: Collapse.Oracle)
    ensures var t := LastType(large, f.name);
            Collapse.CompareFields(g, [f] + rest, large, same) ==
            if t == null then Some(false) else
            if same(g, f.typ, t) == Some(true) then Collapse.CompareFields(g, rest, large, same) else same(g, f.typ, t)
  {
    assert ([f] + rest)[1..] == rest;
  }

  /** The inner lists of a and b, and of b and c, are equated, because that of b knows no element. */
  lemma ListsCompare(g: Graph, ns: seq<TypeSpec>)
    requires Leaves(g, ns)
    ensures Collapse.CompareFields(g, FieldsOfA(ns), FieldsOfB(ns), Collapse.Source()) == Some(true)
    ensures Collapse.CompareFields(g, FieldsOfB(ns), FieldsOfC(ns), Collapse.Source()) == Some(true)
  {
    var same := Collapse.Source();
    LastTypeDistinct(FieldsOfB(ns), 0);
    LastTypeDistinct(FieldsOfC(ns), 0);
    LastTypeDistinct(FieldsOfC(ns), 1);
    assert SameShape(g, ns[2], ns[6], 2) == Some(true) && SameShape(g, ns[6], ns[10], 2) == Some(true);
    assert SameShape(g, ns[8], ns[13], 1) == Some(true);
    ComparedAnswer(g, ns[2], ns[6], 2);
    ComparedAnswer(g, ns[6], ns[10], 2);
    ComparedAnswer(g, ns[8], ns[13], 1);
    assert same(g, ns[2], ns[6]) == Some(true) && same(g, ns[6], ns[10]) == Some(true) && same(g, ns[8], ns[13]) == Some(true);
    var x, x', y := FieldSpec("x", ns[2]), FieldSpec("x", ns[6]), FieldSpec("y", ns[8]);
    assert FieldsOfA(ns) == [x] + [] && FieldsOfB(ns) == [x'] + [y] && [y] == [y] + [];
    CompareFirst(g, x, [], FieldsOfB(ns), same);
    CompareFirst(g, y, [], FieldsOfC(ns), same);
    CompareFirst(g, x', [y], FieldsOfC(ns), same);
  }

  lemma NotInRoot(g: Graph, small: seq<FieldSpec>, root: seq<FieldSpec>, same: Collapse.Oracle)
    requires small != [] && small[0].name == "x" && forall f <- root :: f.name != "x"
    ensures Collapse.CompareFields(g, small, root, same) == Some(false)
  {
  }

  ghost function Structs(ns: seq<TypeSpec>): seq<TypeSpec>
    requires |ns| == 15
  {
    [ns[0], ns[1], ns[5], ns[9]]
  }

  lemma ListsStructs(g: Graph, root: TypeSpec, ns: seq<TypeSpec>, all: seq<TypeSpec>)
    requires |ns| == 15 && Lists(g, ns, "a", FieldsOfA(ns), "b", FieldsOfB(ns))
    requires ns == Walk(g, root, {}) && Collapse.AreStructs(g, root, all)
    ensures all == Structs(ns)
  {
    ListsShape(g, ns, "a", FieldsOfA(ns), "b", FieldsOfB(ns));
    assert all == Collapse.StructsAmong(g, ns);
    StructsListed(g, ns);
  }

  lemma StructsListed(g: Graph, ns: seq<TypeSpec>)
    requires |ns| == 15 && (forall i :: 0 <= i < 15 ==> ns[i] in g)
    requires g[ns[0]].kind == KindStruct && g[ns[1]].kind == KindStruct && g[ns[5]].kind == KindStruct && g[ns[9]].kind == KindStruct
    requires NoStructs(g, ns, 1, 1) && NoStructs(g, ns, 2, 5) && NoStructs(g, ns, 6, 9) && NoStructs(g, ns, 10, 15)
    ensures Collapse.StructsAmong(g, ns) == Structs(ns)
  {
    StructsUpTo(g, ns, 0, 1, []);
    StructsUpTo(g, ns, 1, 5, [] + [ns[0]]);
    StructsUpTo(g, ns, 5, 9, [] + [ns[0]] + [ns[1]]);
    StructsUpTo(g, ns, 9, 15, [] + [ns[0]] + [ns[1]] + [ns[5]]);
    assert ns[..15] == ns;
  }

  /** Rows are determined by names and numbers of fields; no struct is a subset of the root. */
  lemma RootRow(g: Graph, ns: seq<TypeSpec>, a: string, ofA: seq<FieldSpec>, b: string, ofB: seq<FieldSpec>, same: Collapse.Oracle)
    requires |ns| == 15 && Lists(g, ns, a, ofA, b, ofB) && |ofA| <= 3 && |ofB| <= 3
    ensures Collapse.RowRejected(g, ns[0], Structs(ns), same) && Collapse.RowRejected(g, ns[9], Structs(ns), same)
  {
  }

  lemma FirstStep(g: Graph, ns: seq<TypeSpec>)
    requires |ns| == 15 && Lists(g, ns, "a", FieldsOfA(ns), "b", FieldsOfB(ns))
    ensures Collapse.NextInOrder(g, Structs(ns), 0, 1, Collapse.Step(ns[1], ns[5]), Collapse.Source())
  {
    var all, same := Structs(ns), Collapse.Source();
    RootRow(g, ns, "a", FieldsOfA(ns), "b", FieldsOfB(ns), same);
    ListsCompare(g, ns);
    NotInRoot(g, FieldsOfA(ns), g[ns[0]].fields, same);
    assert all[2] == ns[5] && Collapse.Rejected(g, all[1], all[0], same) && Collapse.Rejected(g, all[1], all[1], same);
  }

  lemma SecondStep(g: Graph, ns: seq<TypeSpec>)
    requires |ns| == 15 && Lists(g, ns, "b", FieldsOfB(ns), "b", FieldsOfB(ns))
    ensures Collapse.NextInOrder(g, Structs(ns), 2, 2, Collapse.Step(ns[5], ns[9]), Collapse.Source())
  {
    var all, same := Structs(ns), Collapse.Source();
    ListsCompare(g, ns);
    NotInRoot(g, FieldsOfB(ns), g[ns[0]].fields, same);
    assert all[3] == ns[9] && Collapse.Rejected(g, all[2], all[0], same) && Collapse.Rejected(g, all[2], all[1], same);
    assert Collapse.Rejected(g, all[2], all[2], same);
  }

  lemma ThirdStep(g: Graph, ns: seq<TypeSpec>)
    requires |ns| == 15 && Lists(g, ns, "b", FieldsOfB(ns), "c", FieldsOfC(ns))
    ensures Collapse.NextInOrder(g, Structs(ns), 3, 1, Collapse.Step(ns[1], ns[5]), Collapse.Source())
  {
    var all, same := Structs(ns), Collapse.Source();
    RootRow(g, ns, "b", FieldsOfB(ns), "c", FieldsOfC(ns), same);
    ListsCompare(g, ns);
    NotInRoot(g, FieldsOfB(ns), g[ns[0]].fields, same);
    assert all[2] == ns[5] && Collapse.Rejected(g, all[1], all[0], same) && Collapse.Rejected(g, all[1], all[1], same);
  }

  lemma LastState(g: Graph, ns: seq<TypeSpec>, same: Collapse.Oracle)
    requires |ns| == 15 && Lists(g, ns, "c", FieldsOfC(ns), "c", FieldsOfC(ns))
    ensures Collapse.AllRejected(g, Structs(ns), same)
  {
  }

  lemma TakesOver(g: Graph, ns: seq<TypeSpec>, a: string, ofA: seq<FieldSpec>, b: string, ofB: seq<FieldSpec>)
    requires |ns| == 15 && Lists(g, ns, a, ofA, b, ofB)
    ensures Lists(Collapse.Apply(g, Collapse.Step(ns[1], ns[5])), ns, b, ofB, b, ofB)
    ensures Lists(Collapse.Apply(g, Collapse.Step(ns[5], ns[9])), ns, a, ofA, "c", FieldsOfC(ns))
  {
  }

  lemma ThirdStepFinishes(g: Graph, ns: seq<TypeSpec>) returns (last: Graph)
    requires |ns| == 15 && Lists(g, ns, "b", FieldsOfB(ns), "c", FieldsOfC(ns))
    ensures Collapse.Completes(g, [Collapse.Step(ns[1], ns[5])] + [], last, Structs(ns), 3, 2)
    ensures Lists(last, ns, "c", FieldsOfC(ns), "c", FieldsOfC(ns))
  {
    var s := Collapse.Step(ns[1], ns[5]);
    ThirdStep(g, ns);
    TakesOver(g, ns, "b", FieldsOfB(ns), "c", FieldsOfC(ns));
    last := Collapse.Apply(g, s);
    LastState(last, ns, Collapse.Source());
    Collapse.CompletesNext(g, s, [], last, Structs(ns), 3, 1, 2);
  }

  lemma SecondStepFinishes(g: Graph, ns: seq<TypeSpec>) returns (rest: seq<Collapse.Step>, last: Graph)
    requires |ns| == 15 && Lists(g, ns, "b", FieldsOfB(ns), "b", FieldsOfB(ns))
    ensures Collapse.Completes(g, [Collapse.Step(ns[5], ns[9])] + rest, last, Structs(ns), 2, 2)
    ensures rest == [Collapse.Step(ns[1], ns[5])] && Lists(last, ns, "c", FieldsOfC(ns), "c", FieldsOfC(ns))
  {
    var s := Collapse.Step(ns[5], ns[9]);
    SecondStep(g, ns);
    TakesOver(g, ns, "b", FieldsOfB(ns), "b", FieldsOfB(ns));
    rest := [Collapse.Step(ns[1], ns[5])] + [];
    last := ThirdStepFinishes(Collapse.Apply(g, s), ns);
    Collapse.CompletesNext(g, s, rest, last, Structs(ns), 2, 2, 2);
  }

  ghost function ListsSteps(ns: seq<TypeSpec>): seq<Collapse.Step>
    requires |ns| == 15
  {
    [Collapse.Step(ns[1], ns[5]), Collapse.Step(ns[5], ns[9]), Collapse.Step(ns[1], ns[5])]
  }

  /** a takes over the fields of b, then b those of c, and then a those of c as well. */
  lemma ListsFinish(g: Graph, ns: seq<TypeSpec>) returns (last: Graph)
    requires |ns| == 15 && Lists(g, ns, "a", FieldsOfA(ns), "b", FieldsOfB(ns))
    ensures Collapse.Completes(g, ListsSteps(ns), last, Structs(ns), 0, 2)
    ensures Lists(last, ns, "c", FieldsOfC(ns), "c", FieldsOfC(ns))
  {
    var s := Collapse.Step(ns[1], ns[5]);
    FirstStep(g, ns);
    TakesOver(g, ns, "a", FieldsOfA(ns), "b", FieldsOfB(ns));
    var rest;
    rest, last := SecondStepFinishes(Collapse.Apply(g, s), ns);
    Collapse.CompletesNext(g, s, [Collapse.Step(ns[5], ns[9])] + rest, last, Structs(ns), 0, 1, 2);
    assert [s] + ([Collapse.Step(ns[5], ns[9])] + rest) == ListsSteps(ns);
  }

  /** What a struct makes of an entry is decided by its one field of that name. */
  lemma ByField(g: Graph, n: TypeSpec, name: string, value: Doc, f: FieldSpec)
    requires Closed(g) && n in g && g[n].kind == KindStruct && f in g[n].fields && f.name == name && f.typ in g
    requires forall h <- g[n].fields | h.name == name :: h == f
    ensures Reading.NodeReadsEntry(g, g[n].fields, Pair(name, value)) <==> Reading.NodeReads(g, f.typ, value)
    ensures AdmitsEntry(g, g[n].fields, Pair(name, value)) <==> Admits(g, f.typ, value)
    ensures Reading.NodeReads(g, n, MappingDoc([Pair(name, value)])) <==> Reading.NodeReads(g, f.typ, value)
    ensures Admits(g, n, MappingDoc([Pair(name, value)])) <==> Admits(g, f.typ, value)
  {
    assert Pair(name, value) in [Pair(name, value)];
  }

  lemma ListReads(g: Graph, l: TypeSpec, e: TypeSpec, item: Doc)
    requires Closed(g) && IsSlice(g, l, e) && e in g
    ensures Reading.NodeReads(g, l, SequenceDoc([item])) <==> Reading.NodeReads(g, e, item)
    ensures Admits(g, l, SequenceDoc([item])) <==> Admits(g, e, item)
  {
    assert e in Children(g[l]) && item in [item];
  }

  lemma TextsUnread(g: Graph, ns: seq<TypeSpec>)
    requires Closed(g) && Leaves(g, ns)
    ensures !Reading.NodeReads(g, ns[10], TEXTS)
    ensures Reading.NodeReads(g, ns[6], TEXTS) && !Admits(g, ns[6], TEXTS)
    ensures Admits(g, ns[2], TEXTS)
  {
    var text, list := ScalarDoc(StringNode), SequenceDoc([ScalarDoc(StringNode)]);
    ListReads(g, ns[10], ns[11], list);
    ListReads(g, ns[11], ns[12], text);
    ListReads(g, ns[6], ns[7], list);
    ListReads(g, ns[2], ns[3], list);
    ListReads(g, ns[3], ns[4], text);
    assert text in [text];
  }

  /** Whether the document is read or admitted depends on the list of a. */
  lemma ListsByA(g: Graph, ns: seq<TypeSpec>, a: string, ofA: seq<FieldSpec>, b: string, ofB: seq<FieldSpec>, list: FieldSpec)
    requires Closed(g) && Lists(g, ns, a, ofA, b, ofB)
    requires list in ofA && list.name == "x" && list.typ in g && forall h <- ofA | h.name == "x" :: h == list
    ensures !Reading.NodeReads(g, list.typ, TEXTS) ==> !Reading.NodeReads(g, ns[0], LISTS_DOC)
    ensures !Admits(g, list.typ, TEXTS) ==> !Admits(g, ns[0], LISTS_DOC)
  {
    ByField(g, ns[1], "x", TEXTS, list);
    ByField(g, ns[0], "a", A_DOC, FieldSpec("a", ns[1]));
    assert Pair("a", A_DOC) in LISTS_DOC.entries;
  }

  lemma FirstApplied(g: Graph, ns: seq<TypeSpec>, bound: nat)
    requires |ns| == 15 && Lists(g, ns, "a", FieldsOfA(ns), "b", FieldsOfB(ns)) && Taggable(g, bound)
    ensures var g' := Collapse.Apply(g, Collapse.Step(ns[1], ns[5]));
            Lists(g', ns, "b", FieldsOfB(ns), "b", FieldsOfB(ns)) && Taggable(g', bound)
  {
    var g' := Collapse.Apply(g, Collapse.Step(ns[1], ns[5]));
    Collapse.ApplyClosed(g, Collapse.Step(ns[1], ns[5]));
    forall t <- g'
      ensures Ends(g', t, bound)
    {
      assert Ends(g, t, bound);
      SameElementsEnd(g, g', t, bound);
    }
  }

  ghost function FieldsByName(ns: seq<TypeSpec>): map<string, seq<FieldSpec>>
    requires |ns| == 15
  {
    map["Config" := [FieldSpec("a", ns[1]), FieldSpec("b", ns[5]), FieldSpec("c", ns[9])],
        "b" := FieldsOfB(ns), "c" := FieldsOfC(ns)]
  }

  lemma ListsListed(g: Graph, ns: seq<TypeSpec>, name: string, fields: seq<FieldSpec>, i: nat)
    requires |ns| == 15 && Lists(g, ns, name, fields, name, fields) && i < 15
    requires name in {"b", "c"} && fields == FieldsByName(ns)[name]
    ensures ns[i] in g && Reading.Listed(g[ns[i]], FieldsByName(ns))
    ensures forall c <- Children(g[ns[i]]) :: c in Set(ns)
  {
    assert "int" !in FieldsByName(ns) && "string" !in FieldsByName(ns) && "any" !in FieldsByName(ns);
    var n := g[ns[i]];
    if n.kind == KindStruct {
      forall c <- Children(n)
        ensures c in ns
      {
        var j :| 0 <= j < |n.fields| && n.fields[j].typ == c;
      }
    }
  }

  /** In these graphs no two structs share a name and differ. */
  lemma ListsAgree(g: Graph, ns: seq<TypeSpec>, name: string, fields: seq<FieldSpec>, bound: nat)
    requires |ns| == 15 && Lists(g, ns, name, fields, name, fields) && Taggable(g, bound)
    requires name in {"b", "c"} && fields == FieldsByName(ns)[name]
    ensures Reading.NamesAgree(g, ns[0], bound)
  {
    forall n <- Set(ns)
      ensures n in g && Reading.Listed(g[n], FieldsByName(ns)) && forall c <- Children(g[n]) :: c in Set(ns)
    {
      var i :| 0 <= i < |ns| && ns[i] == n;
      ListsListed(g, ns, name, fields, i);
    }
    WalkInside(g, ns[0], Set(ns));
    Reading.FieldsByName(g, ns[0], bound, FieldsByName(ns));
  }

  lemma AfterStepLost(g: Graph, ns: seq<TypeSpec>)
    requires |ns| == 15 && Lists(g, ns, "b", FieldsOfB(ns), "b", FieldsOfB(ns)) && Closed(g)
    ensures !Admits(g, ns[1], A_DOC) && Reading.NodeReads(g, ns[1], A_DOC) && !Admits(g, ns[0], LISTS_DOC)
  {
    var list := FieldSpec("x", ns[6]);
    TextsUnread(g, ns);
    ByField(g, ns[1], "x", TEXTS, list);
    ListsByA(g, ns, "b", FieldsOfB(ns), "b", FieldsOfB(ns), list);
  }

  lemma AfterStepRead(g: Graph, ns: seq<TypeSpec>, bound: nat)
    requires |ns| == 15 && Lists(g, ns, "b", FieldsOfB(ns), "b", FieldsOfB(ns)) && Taggable(g, bound)
    ensures Reading.Reads(Reading.File(g, ns[0], bound), Reading.Written(0, "b"), A_DOC)
  {
    AfterStepLost(g, ns);
    ListsAgree(g, ns, "b", FieldsOfB(ns), bound);
    ReachesSelf(g, ns[1]);
    assert Children(g[ns[0]])[0] == ns[1];
    ReachesStep(g, ns[0], ns[1], ns[1]);
    VisitsExactlyTheReachable(g, ns[0]);
    Reading.AgreedReads(g, ns[0], bound, ns[1], A_DOC);
  }

  /** After the first step the graph has lost the document; the type a file written now would have for
      the list of a is [][]any, which still reads it. */
  lemma FirstStepLoses(g: Graph, ns: seq<TypeSpec>, bound: nat)
    requires |ns| == 15 && Lists(g, ns, "a", FieldsOfA(ns), "b", FieldsOfB(ns)) && Taggable(g, bound)
    ensures var g' := Collapse.Apply(g, Collapse.Step(ns[1], ns[5]));
            && Taggable(g', bound) && IsStruct(g', ns[1], "b", FieldsOfB(ns))
            && Admits(g, ns[1], A_DOC) && !Admits(g', ns[1], A_DOC) && !Admits(g', ns[0], LISTS_DOC)
            && Reading.Reads(Reading.File(g', ns[0], bound), Reading.Written(0, "b"), A_DOC)
  {
    var g' := Collapse.Apply(g, Collapse.Step(ns[1], ns[5]));
    FirstApplied(g, ns, bound);
    TextsUnread(g, ns);
    ByField(g, ns[1], "x", TEXTS, FieldSpec("x", ns[2]));
    AfterStepLost(g', ns);
    AfterStepRead(g', ns, bound);
  }

  lemma ListsUnread(g: Graph, ns: seq<TypeSpec>, bound: nat)
    requires |ns| == 15 && Lists(g, ns, "c", FieldsOfC(ns), "c", FieldsOfC(ns)) && Taggable(g, bound)
    ensures !Reading.NodeReads(g, ns[0], LISTS_DOC)
    ensures !Reading.Reads(Reading.File(g, ns[0], bound), Reading.Written(0, "Config"), LISTS_DOC)
  {
    TextsUnread(g, ns);
    ListsByA(g, ns, "c", FieldsOfC(ns), "c", FieldsOfC(ns), FieldSpec("x", ns[10]));
    ListsAgree(g, ns, "c", FieldsOfC(ns), bound);
    VisitsExactlyTheReachable(g, ns[0]);
    Reading.AgreedReads(g, ns[0], bound, ns[0], LISTS_DOC);
  }

  /** Where the run stands before collapseSubsetStructs. */
  lemma ListsPrepared(r: Run, root: TypeSpec) returns (ns: seq<TypeSpec>)
    requires Prepared(r, root, LISTS) && |r.states| > 1
    ensures Ended(r.states) && |ns| == 15 && root == ns[0]
    ensures var g := Last(r.states).graph;
            Lists(g, ns, "a", FieldsOfA(ns), "b", FieldsOfB(ns)) && Closed(g) && ns == Walk(g, root, {})
  {
    ns := ListsNamed(r.built, r.named, root);
    TreeNodes(r.built, r.named, root, LISTS);
    ListsNothing(r.named, ns);
    var candidates := Resolve.Candidates(r.named, Walk(r.named, root, {}));
    ListsResolved(r.named, r.resolved, candidates, ns);
    WalkUnfilled(r.named, r.resolved, candidates, root);
    ResolvedStage(r, root, LISTS);
    ListsStates(r.states, r.resolved, ns, Bound(LISTS));
  }

  /** The structs in visiting order. */
  lemma ListsCollected(r: Run, root: TypeSpec, ns: seq<TypeSpec>)
    requires Prepared(r, root, LISTS) && |ns| == 15 && root == ns[0]
    requires var g := Last(r.states).graph;
             Lists(g, ns, "a", FieldsOfA(ns), "b", FieldsOfB(ns)) && Closed(g) && ns == Walk(g, root, {})
    ensures Collapse.AreStructs(Last(r.states).graph, root, Structs(ns))
  {
    var g := Last(r.states).graph;
    ListsShape(g, ns, "a", FieldsOfA(ns), "b", FieldsOfB(ns));
    StructsListed(g, ns);
    StructsCollected(g, root);
  }

  /** A run of finalize ends on this document: one renaming pass suffices, and every comparison of the
      collapsing pass returns. */
  lemma ListsReturn(r: Run, root: TypeSpec) returns (r': Run)
    requires Prepared(r, root, LISTS) && |r.states| > 1
    ensures Ended(r.states) && Finished(r', root, LISTS) && r'.states == r.states
  {
    var ns := ListsPrepared(r, root);
    ListsCollected(r, root, ns);
    var last := ListsFinish(Last(r.states).graph, ns);
    r' := r.(all := Structs(ns), steps := ListsSteps(ns), last := last, row := 2);
  }

  /** And after every such run neither the graph admits nor the file reads the document of the one theme
      there is. */
  lemma ThemeIsLost(r: Run, root: TypeSpec)
    requires Finished(r, root, LISTS)
    ensures Infer.UnionThemes([Some(LISTS_DOC)]) == Success(Some(LISTS))
    ensures root in r.last && Closed(r.last) && !Admits(r.last, root, LISTS_DOC)
    ensures !Reading.Reads(FileOf(r, root, LISTS), Reading.Written(0, "Config"), LISTS_DOC)
  {
    ListsInferred();
    var ns := ListsPrepared(r, root);
    var g := Last(r.states).graph;
    ListsStructs(g, root, ns, r.all);
    var last := ListsFinish(g, ns);
    Collapse.OnlyRun(g, r.steps, r.last, r.row, ListsSteps(ns), last, 2, r.all, 0);
    FinishedStage(r, root, LISTS);
    ListsUnread(r.last, ns, Bound(LISTS));
    if Admits(r.last, root, LISTS_DOC) {
      Reading.AdmitsReads(r.last, root, LISTS_DOC);
    }
  }
}
