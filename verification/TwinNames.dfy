/** A document the generated types do not read although no type collapses: two structs are given the same
    name, and only the first of them is written. */
module TwinNames {
  import opened Wrappers
  import opened TypeGraph
  import opened Trees
  import opened Naming
  import opened GraphSameShape
  import opened Shapes
  import Infer
  import Resolve
  import Collapse
  import Reading
  import opened Finalize
  import opened SmallDocuments

  // a: {x: {m: 1}}
  // x: {n: 1}
  const M_DOC := MappingDoc([Pair("m", ONE)])
  const N_DOC := MappingDoc([Pair("n", ONE)])
  const A_DOC := MappingDoc([Pair("x", M_DOC)])
  const TWINS_DOC := MappingDoc([Pair("a", A_DOC), Pair("x", N_DOC)])

  const M := Struct([Field("m", INT)])
  const N := Struct([Field("n", INT)])
  const A := Struct([Field("x", M)])
  const TWINS := Struct([Field("a", A), Field("x", N)])

  lemma TwinsInferred()
    ensures Infer.UnionThemes([Some(TWINS_DOC)]) == Success(Some(TWINS))
  {
    OneEntry("m", ONE, INT);
    OneEntry("n", ONE, INT);
    OneEntry("x", M_DOC, M);
    TwoEntries("a", A_DOC, A, "x", N_DOC, N);
    TwinsUnique();
    OneTheme(TWINS_DOC, TWINS);
  }

  lemma TwinsUnique()
    ensures UniqueNames(TWINS)
  {
    assert UniqueNames(M) && UniqueNames(N) && UniqueNames(A);
  }

  /** The nodes in visiting order. */
  ghost predicate Twins(g: Graph, ns: seq<TypeSpec>) {
    && |ns| == 6 && Distinct(ns)
    && IsStruct(g, ns[0], "Config", [FieldSpec("a", ns[1]), FieldSpec("x", ns[4])])
    && IsStruct(g, ns[1], "a", [FieldSpec("x", ns[2])])
    && IsStruct(g, ns[2], "x", [FieldSpec("m", ns[3])]) && IsScalar(g, ns[3], "int")
    && IsStruct(g, ns[4], "x", [FieldSpec("n", ns[5])]) && IsScalar(g, ns[5], "int")
  }

  lemma TwinParts(g: Graph, root: TypeSpec, a: Field, x: Field, x': Field, m: Field, n: Field) returns (ns: seq<TypeSpec>)
    requires a == Field("a", Struct([x])) && x == Field("x", Struct([m])) && m == Field("m", Scalar("int"))
    requires x' == Field("x", Struct([n])) && n == Field("n", Scalar("int"))
    requires Part(g, root, Struct([a, x']), "") && g[root].name == "Config"
    requires Distinct(PreOrder(g, root, Struct([a, x'])))
    ensures ns == PreOrder(g, root, Struct([a, x'])) && Twins(g, ns)
  {
    var na, nx' := StructOfTwo(g, root, a, x', "");
    StructUnder(g, na, a, "");
    var nx := StructOfOne(g, na, x, "a");
    StructUnder(g, nx, x, "a");
    var nm := StructOfOne(g, nx, m, "x");
    StructUnder(g, nx', x', "");
    var nn := StructOfOne(g, nx', n, "x");
    ns := [root, na, nx, nm, nx', nn];
  }

  lemma TwinsNamed(built: Graph, g: Graph, root: TypeSpec) returns (ns: seq<TypeSpec>)
    requires IsBuilt(built, root, TWINS) && IsNamed(built, g, root, TWINS)
    ensures ns == Walk(g, root, {}) && Twins(g, ns)
  {
    TreeNodes(built, g, root, TWINS);
    ns := TwinParts(g, root, TWINS.fields[0], A.fields[0], TWINS.fields[1], M.fields[0], N.fields[0]);
  }

  lemma TwinsNothing(g: Graph, ns: seq<TypeSpec>)
    requires Twins(g, ns) && g.Keys == Set(ns)
    ensures NothingToFill(g)
  {
    forall n <- g
      ensures g[n].kind != KindNull
      ensures g[n].kind == KindStruct ==> forall f <- g[n].fields :: f.typ in g && (g[f.typ].kind == KindSlice ==> g[f.typ].element != null)
    {
      var i :| 0 <= i < |ns| && ns[i] == n;
    }
  }

  lemma TwinsInside(g: Graph, ns: seq<TypeSpec>)
    requires Twins(g, ns)
    ensures forall n <- ns :: n in g
    ensures NoStructs(g, ns, 1, 1) && NoStructs(g, ns, 2, 2) && NoStructs(g, ns, 3, 4) && NoStructs(g, ns, 5, 6)
  {
    assert forall i :: 0 <= i < 6 ==> ns[i] in g;
  }

  lemma TwinsResolved(g0: Graph, g: Graph, candidates: map<string, TypeSpec>, ns: seq<TypeSpec>)
    requires Resolve.Grown(g0, g, candidates) && NothingToFill(g0) && Twins(g0, ns)
    ensures Twins(g, ns)
  {
    TwinsInside(g0, ns);
    NodesUnfilled(g0, g, candidates, ns);
    assert NodeSame(g0, g, ns[0]) && NodeSame(g0, g, ns[1]) && NodeSame(g0, g, ns[2]);
    assert NodeSame(g0, g, ns[3]) && NodeSame(g0, g, ns[4]) && NodeSame(g0, g, ns[5]);
  }

  lemma TwinsKeys(g: Graph, ns: seq<TypeSpec>, bound: nat)
    requires Twins(g, ns) && Taggable(g, bound)
    ensures ShapeKey(g, ns[0], bound) != "" && ShapeKey(g, ns[0], bound)[0] == 'a'
    ensures ShapeKey(g, ns[1], bound) != "" && ShapeKey(g, ns[1], bound)[0] == 'x'
    ensures ShapeKey(g, ns[2], bound) != "" && ShapeKey(g, ns[2], bound)[0] == 'm'
    ensures ShapeKey(g, ns[4], bound) != "" && ShapeKey(g, ns[4], bound)[0] == 'n'
  {
    KeyOfTwo(g, ns[0], FieldSpec("a", ns[1]), FieldSpec("x", ns[4]), bound);
    KeyOfOne(g, ns[1], FieldSpec("x", ns[2]), bound);
    KeyOfOne(g, ns[2], FieldSpec("m", ns[3]), bound);
    KeyOfOne(g, ns[4], FieldSpec("n", ns[5]), bound);
  }

  /** The keys differ, so the renaming pass finds nothing to do. */
  lemma TwinsPass(g: Graph, ns: seq<TypeSpec>, bound: nat)
    requires Twins(g, ns) && Taggable(g, bound) && forall n <- ns :: n in g
    ensures !PassOver(PassState(g, map[], false), ns, bound).changed
  {
    var st := PassState(g, map[], false);
    TwinsInside(g, ns);
    TwinsKeys(g, ns, bound);
    Begin(st, ns, bound);
    var s0 := VisitNew(st, ns, 0, 1, bound, st, ShapeKey(g, ns[0], bound));
    var s1 := VisitNew(st, ns, 1, 2, bound, s0, ShapeKey(g, ns[1], bound));
    var s2 := VisitNew(st, ns, 2, 4, bound, s1, ShapeKey(g, ns[2], bound));
    var s4 := VisitNew(st, ns, 4, 6, bound, s2, ShapeKey(g, ns[4], bound));
    Finish(st, ns, bound, s4);
  }

  lemma TwinsStates(states: seq<PassState>, g: Graph, ns: seq<TypeSpec>, bound: nat)
    requires Twins(g, ns) && Taggable(g, bound)
    requires |states| > 1 && states[0] == PassState(g, map[], false) && Passes(states, ns, bound)
    ensures Ended(states) && |states| == 2 && Last(states).graph == g
  {
    TwinsInside(g, ns);
    StateAfter(states, ns, bound, 0);
    TwinsPass(g, ns, bound);
    EndsAt(states, ns, bound, 1);
  }

  /** Where the run stands before collapseSubsetStructs. */
  lemma TwinsPrepared(r: Run, root: TypeSpec) returns (ns: seq<TypeSpec>)
    requires Prepared(r, root, TWINS) && |r.states| > 1
    ensures Ended(r.states) && |r.states| == 2 && Last(r.states).graph == r.resolved
    ensures Twins(r.resolved, ns) && Taggable(r.resolved, Bound(TWINS)) && ns == Walk(r.resolved, root, {}) && root == ns[0]
  {
    ns := TwinsNamed(r.built, r.named, root);
    TreeNodes(r.built, r.named, root, TWINS);
    TwinsNothing(r.named, ns);
    var candidates := Resolve.Candidates(r.named, Walk(r.named, root, {}));
    TwinsResolved(r.named, r.resolved, candidates, ns);
    WalkUnfilled(r.named, r.resolved, candidates, root);
    ResolvedStage(r, root, TWINS);
    TwinsStates(r.states, r.resolved, ns, Bound(TWINS));
  }

  /** The fields x of a and of the root do not have the same shape, and nothing else could collapse. */
  lemma TwinsNoStep(g: Graph, root: TypeSpec, ns: seq<TypeSpec>, all: seq<TypeSpec>)
    requires Twins(g, ns) && Closed(g) && ns == Walk(g, root, {}) && Collapse.AreStructs(g, root, all)
    ensures Collapse.AllRejected(g, all, Collapse.Source())
  {
    LastTypeDistinct(g[ns[0]].fields, 1);
    assert SameShape(g, ns[2], ns[4], 2) == Some(false);
    ComparedAnswer(g, ns[2], ns[4], 2);
    forall small <- all, large <- all
      ensures Collapse.Rejected(g, small, large, Collapse.Source())
    {
      Collapse.StructsAmongExact(g, ns, small);
      Collapse.StructsAmongExact(g, ns, large);
      assert small in {ns[0], ns[1], ns[2], ns[4]} && large in {ns[0], ns[1], ns[2], ns[4]};
    }
  }

  /** On this document finalize returns after one renaming pass, with nothing to collapse. */
  lemma TwinsReturn(r: Run, root: TypeSpec) returns (r': Run)
    requires Prepared(r, root, TWINS) && |r.states| > 1
    ensures Ended(r.states) && Finished(r', root, TWINS) && r'.states == r.states
  {
    var ns := TwinsPrepared(r, root);
    var g := Last(r.states).graph;
    var all := Collapse.StructsAmong(g, ns);
    StructsCollected(g, root);
    TwinsNoStep(g, root, ns, all);
    NothingToCollapse(r, root, TWINS, all);
    r' := r.(all := all, steps := [], last := g, row := 0);
  }

  lemma LinesOfFields(g: Graph, n: TypeSpec, bound: nat, l: Reading.Line) returns (f: FieldSpec)
    requires Taggable(g, bound) && n in g && g[n].kind == KindStruct && l in Reading.DeclOf(g, n, bound).fields
    ensures f in g[n].fields && f.typ in g && l == Reading.Line(f.name, Reading.Spelled(g, f.typ, bound))
  {
    var lines := Reading.DeclOf(g, n, bound).fields;
    FieldTypesInside(g, n);
    var i :| 0 <= i < |lines| && lines[i] == l;
    f := g[n].fields[i];
    assert f in g[n].fields;
  }

  lemma TwinsLine(g: Graph, ns: seq<TypeSpec>, bound: nat, n: TypeSpec, l: Reading.Line)
    requires Twins(g, ns) && Taggable(g, bound) && n in ns && n in g && g[n].kind == KindStruct && n != ns[4]
    requires l in Reading.DeclOf(g, n, bound).fields
    ensures l.name != "n" && l.typ.base != "any"
  {
    var f := LinesOfFields(g, n, bound, l);
    assert n == ns[0] || n == ns[1] || n == ns[2];
  }

  /** The type x is that of the first of the two. */
  lemma TwinsFirst(g: Graph, ns: seq<TypeSpec>, bound: nat)
    requires Twins(g, ns) && Taggable(g, bound) && ns == Walk(g, ns[0], {})
    ensures Reading.DeclOf(g, ns[2], bound) in Reading.File(g, ns[0], bound)
  {
    TwinsInside(g, ns);
    Reading.FirstDeclared(g, ns[0], bound, 2);
  }

  /** So the file has no field n. */
  lemma TwinsFile(g: Graph, ns: seq<TypeSpec>, bound: nat)
    requires Twins(g, ns) && Taggable(g, bound) && ns == Walk(g, ns[0], {})
    ensures forall decl <- Reading.File(g, ns[0], bound), l <- decl.fields :: l.name != "n" && l.typ.base != "any"
  {
    var file := Reading.File(g, ns[0], bound);
    TwinsFirst(g, ns, bound);
    Reading.FileExactly(g, ns[0], bound);
    forall decl <- file, l <- decl.fields
      ensures l.name != "n" && l.typ.base != "any"
    {
      var n :| n in ns && Reading.IsDeclOf(g, n, bound, decl);
      TwinsDecl(g, ns, bound, file, n, decl, l);
    }
  }

  lemma TwinsDecl(g: Graph, ns: seq<TypeSpec>, bound: nat, file: seq<Reading.Decl>, n: TypeSpec, decl: Reading.Decl, l: Reading.Line)
    requires Twins(g, ns) && Taggable(g, bound) && Reading.DeclOf(g, ns[2], bound) in file && Reading.Unambiguous(file)
    requires n in ns && Reading.IsDeclOf(g, n, bound, decl) && decl in file && l in decl.fields
    ensures l.name != "n" && l.typ.base != "any"
  {
    if n == ns[4] {
      assert decl == Reading.DeclOf(g, ns[2], bound);
      TwinsLine(g, ns, bound, ns[2], l);
    } else {
      TwinsLine(g, ns, bound, n, l);
    }
  }

  /** Without a field n a struct that has one is not read. */
  lemma NothingReadsN(file: seq<Reading.Decl>)
    requires forall decl <- file, l <- decl.fields :: l.name != "n" && l.typ.base != "any"
    ensures !Reading.Reads(file, Reading.Written(0, "Config"), TWINS_DOC)
  {
    var x := Pair("x", N_DOC);
    assert x in TWINS_DOC.entries && Pair("n", ONE) in N_DOC.entries;
    assert forall w: Reading.Written | w.base != "any" :: !Reading.Reads(file, w, N_DOC);
    assert !Reading.ReadsEntry(file, "Config", x);
  }

  lemma TwinsFinished(r: Run, root: TypeSpec) returns (ns: seq<TypeSpec>)
    requires Finished(r, root, TWINS)
    ensures r.steps == [] && |r.states| == 2 && Twins(r.last, ns) && ns == Walk(r.last, root, {}) && root == ns[0]
    ensures Taggable(r.last, Bound(TWINS))
  {
    ns := TwinsPrepared(r, root);
    TwinsNoStep(r.resolved, root, ns, r.all);
    NoSteps(r.resolved, r.steps, r.last, r.all, Collapse.Source());
  }

  /** Every run of finalize on the document is careful and keeps the root's name, and still the file does
      not read the document: the theme's n is dropped, because x is the type of another struct. */
  lemma TwinIsUnread(r: Run, root: TypeSpec)
    requires Finished(r, root, TWINS)
    ensures Infer.UnionThemes([Some(TWINS_DOC)]) == Success(Some(TWINS))
    ensures Careful(r) && RootKept(r, root, TWINS) && NamesClash(r, root, TWINS)
    ensures !Reading.Reads(FileOf(r, root, TWINS), Reading.Written(0, "Config"), TWINS_DOC)
  {
    TwinsInferred();
    var ns := TwinsFinished(r, root);
    TwinsFile(r.last, ns, Bound(TWINS));
    NothingReadsN(FileOf(r, root, TWINS));
    KeptByOnePass(r, root, TWINS);
    UnreadByClash([Some(TWINS_DOC)], TWINS, r, root, TWINS_DOC);
  }
}
