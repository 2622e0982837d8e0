/** A document on which deduplicateStructs never returns: three structs hand their names round in a circle,
    each renamed to the one that was stored under the key it has by now. */
module EndlessNames {
  import opened Wrappers
  import opened TypeGraph
  import opened Trees
  import opened Naming
  import opened Shapes
  import Infer
  import Resolve
  import opened Finalize
  import opened SmallDocuments

  // qitem: {a: 1}
  // ritem: {b: 1}
  // pitem: {c: 1}
  // p: {items: [{a: 1}]}
  // q: {items: [{b: 1}]}
  // r: {items: [{c: 1}]}

  function ItemDoc(k: string): Doc {
    MappingDoc([Pair(k, ONE)])
  }

  function RowDoc(k: string): Doc {
    MappingDoc([Pair("items", SequenceDoc([ItemDoc(k)]))])
  }

  function Item(k: string): Shape {
    Struct([Field(k, INT)])
  }

  function Row(k: string): Shape {
    Struct([Field("items", Slice(Some(Item(k))))])
  }

  const ENTRIES := [Pair("qitem", ItemDoc("a")), Pair("ritem", ItemDoc("b")), Pair("pitem", ItemDoc("c")),
                    Pair("p", RowDoc("a")), Pair("q", RowDoc("b")), Pair("r", RowDoc("c"))]
  const CIRCLE_DOC := MappingDoc(ENTRIES)

  const FIELDS := [Field("qitem", Item("a")), Field("ritem", Item("b")), Field("pitem", Item("c")),
                   Field("p", Row("a")), Field("q", Row("b")), Field("r", Row("c"))]
  const CIRCLE := Struct(FIELDS)

  lemma ItemInferred(k: string)
    ensures Infer.InferNode(ItemDoc(k)) == Success(Item(k)) && UniqueNames(Item(k))
  {
    OneEntry(k, ONE, INT);
  }

  lemma RowInferred(k: string)
    ensures Infer.InferNode(RowDoc(k)) == Success(Row(k)) && UniqueNames(Row(k))
  {
    ItemInferred(k);
    OneItem(ItemDoc(k), Item(k));
    OneEntry("items", SequenceDoc([ItemDoc(k)]), Slice(Some(Item(k))));
  }

  /** Items under three names and rows under three more. */
  lemma SixInferred(entries: seq<Entry>, fields: seq<Field>, ks: seq<string>)
    requires |entries| == |fields| == |ks| == 6
    requires forall i :: 0 <= i < 6 ==> entries[i] == Pair(fields[i].name, if i < 3 then ItemDoc(ks[i]) else RowDoc(ks[i]))
    requires forall i :: 0 <= i < 6 ==> fields[i].shape == if i < 3 then Item(ks[i]) else Row(ks[i])
    requires DistinctNames(fields)
    ensures Infer.UnionThemes([Some(MappingDoc(entries))]) == Success(Some(Struct(fields)))
  {
    forall i | 0 <= i < 6
      ensures InferredAs(entries[i], fields[i]) && UniqueNames(fields[i].shape)
    {
      ItemInferred(ks[i]);
      RowInferred(ks[i]);
    }
    EntriesInferred(entries, fields);
    OneTheme(MappingDoc(entries), Struct(fields));
  }

  lemma CircleInferred()
    ensures Infer.UnionThemes([Some(CIRCLE_DOC)]) == Success(Some(CIRCLE))
  {
    SixInferred(ENTRIES, FIELDS, ["a", "b", "c", "a", "b", "c"]);
  }

  // ---------- the graph ----------

  /** The names of the structs p, q and r, and of the elements of their lists. */
  datatype Named = Named(p: string, q: string, r: string, ip: string, iq: string, ir: string)

  ghost predicate IsItem(g: Graph, n: TypeSpec, t: TypeSpec, name: string, k: string) {
    IsStruct(g, n, name, [FieldSpec(k, t)]) && IsScalar(g, t, "int")
  }

  ghost predicate IsRow(g: Graph, n: TypeSpec, l: TypeSpec, e: TypeSpec, t: TypeSpec, name: string, item: string, k: string) {
    IsStruct(g, n, name, [FieldSpec("items", l)]) && IsSlice(g, l, e) && IsItem(g, e, t, item, k)
  }

  ghost predicate IsRoot(g: Graph, ns: seq<TypeSpec>)
    requires |ns| == 19
  {
    IsStruct(g, ns[0], "Config", [FieldSpec("qitem", ns[1]), FieldSpec("ritem", ns[3]), FieldSpec("pitem", ns[5]),
                                  FieldSpec("p", ns[7]), FieldSpec("q", ns[11]), FieldSpec("r", ns[15])])
  }

  /** The nodes in visiting order. */
  ghost predicate Circle(g: Graph, ns: seq<TypeSpec>, nm: Named) {
    && |ns| == 19 && Distinct(ns) && IsRoot(g, ns)
    && IsItem(g, ns[1], ns[2], "qitem", "a") && IsItem(g, ns[3], ns[4], "ritem", "b") && IsItem(g, ns[5], ns[6], "pitem", "c")
    && IsRow(g, ns[7], ns[8], ns[9], ns[10], nm.p, nm.ip, "a")
    && IsRow(g, ns[11], ns[12], ns[13], ns[14], nm.q, nm.iq, "b")
    && IsRow(g, ns[15], ns[16], ns[17], ns[18], nm.r, nm.ir, "c")
  }

  /** The fields from i on, one node after the other. */
  lemma FieldPart(g: Graph, n: TypeSpec, fields: seq<Field>, i: nat, parent: string) returns (t: TypeSpec)
    requires Part(g, n, Struct(fields), parent) && i < |fields|
    ensures g[n].fields[i] == FieldSpec(fields[i].name, t)
    ensures Represents(g, t, fields[i].shape) && ChildNamed(g, t, fields[i], parent)
    ensures PreOrderFrom(g, n, fields, i) == PreOrder(g, t, fields[i].shape) + PreOrderFrom(g, n, fields, i + 1)
  {
    t := g[n].fields[i].typ;
    assert ChildNamed(g, g[n].fields[i].typ, fields[i], parent);
  }

  lemma ItemPart(g: Graph, root: TypeSpec, fields: seq<Field>, i: nat, k: string) returns (n: TypeSpec, t: TypeSpec)
    requires Part(g, root, Struct(fields), "") && i < |fields| && fields[i].shape == Item(k)
    ensures g[root].fields[i] == FieldSpec(fields[i].name, n) && IsItem(g, n, t, fields[i].name, k)
    ensures PreOrderFrom(g, root, fields, i) == [n, t] + PreOrderFrom(g, root, fields, i + 1)
  {
    n := FieldPart(g, root, fields, i, "");
    StructUnder(g, n, fields[i], "");
    t := StructOfOne(g, n, Field(k, INT), fields[i].name);
  }

  lemma RowPart(g: Graph, root: TypeSpec, fields: seq<Field>, i: nat, k: string)
    returns (n: TypeSpec, l: TypeSpec, e: TypeSpec, t: TypeSpec)
    requires Part(g, root, Struct(fields), "") && i < |fields| && fields[i].shape == Row(k)
    ensures g[root].fields[i] == FieldSpec(fields[i].name, n)
    ensures IsRow(g, n, l, e, t, fields[i].name, ElementName(fields[i].name, "items"), k)
    ensures PreOrderFrom(g, root, fields, i) == [n, l, e, t] + PreOrderFrom(g, root, fields, i + 1)
  {
    n := FieldPart(g, root, fields, i, "");
    StructUnder(g, n, fields[i], "");
    var list := Field("items", Slice(Some(Item(k))));
    l := StructOfOne(g, n, list, fields[i].name);
    e := StructList(g, l, list, Item(k), fields[i].name);
    t := StructOfOne(g, e, Field(k, INT), ElementName(fields[i].name, "items"));
  }

  lemma ThreeItems(g: Graph, root: TypeSpec, fields: seq<Field>, a: string, b: string, c: string) returns (ns: seq<TypeSpec>)
    requires Part(g, root, Struct(fields), "") && |fields| == 6
    requires fields[0].shape == Item(a) && fields[1].shape == Item(b) && fields[2].shape == Item(c)
    ensures |ns| == 6 && IsItem(g, ns[0], ns[1], fields[0].name, a) && IsItem(g, ns[2], ns[3], fields[1].name, b)
    ensures IsItem(g, ns[4], ns[5], fields[2].name, c)
    ensures g[root].fields[0].typ == ns[0] && g[root].fields[1].typ == ns[2] && g[root].fields[2].typ == ns[4]
    ensures PreOrderFrom(g, root, fields, 0) == ns + PreOrderFrom(g, root, fields, 3)
  {
    var n0, t0 := ItemPart(g, root, fields, 0, a);
    var n1, t1 := ItemPart(g, root, fields, 1, b);
    var n2, t2 := ItemPart(g, root, fields, 2, c);
    ns := [n0, t0, n1, t1, n2, t2];
    Joined([n0, t0], [n1, t1], [n2, t2], PreOrderFrom(g, root, fields, 3));
    assert [n0, t0] + [n1, t1] + [n2, t2] == ns;
  }

  lemma ThreeRows(g: Graph, root: TypeSpec, fields: seq<Field>, a: string, b: string, c: string) returns (ns: seq<TypeSpec>)
    requires Part(g, root, Struct(fields), "") && |fields| == 6
    requires fields[3].shape == Row(a) && fields[4].shape == Row(b) && fields[5].shape == Row(c)
    ensures |ns| == 12
    ensures IsRow(g, ns[0], ns[1], ns[2], ns[3], fields[3].name, ElementName(fields[3].name, "items"), a)
    ensures IsRow(g, ns[4], ns[5], ns[6], ns[7], fields[4].name, ElementName(fields[4].name, "items"), b)
    ensures IsRow(g, ns[8], ns[9], ns[10], ns[11], fields[5].name, ElementName(fields[5].name, "items"), c)
    ensures g[root].fields[3].typ == ns[0] && g[root].fields[4].typ == ns[4] && g[root].fields[5].typ == ns[8]
    ensures PreOrderFrom(g, root, fields, 3) == ns
  {
    var n3, l3, e3, t3 := RowPart(g, root, fields, 3, a);
    var n4, l4, e4, t4 := RowPart(g, root, fields, 4, b);
    var n5, l5, e5, t5 := RowPart(g, root, fields, 5, c);
    ns := [n3, l3, e3, t3, n4, l4, e4, t4, n5, l5, e5, t5];
    assert PreOrderFrom(g, root, fields, 6) == [];
    Joined([n3, l3, e3, t3], [n4, l4, e4, t4], [n5, l5, e5, t5], []);
    assert [n3, l3, e3, t3] + [n4, l4, e4, t4] + [n5, l5, e5, t5] == ns && ns + [] == ns;
  }

  lemma Joined(a: seq<TypeSpec>, b: seq<TypeSpec>, c: seq<TypeSpec>, rest: seq<TypeSpec>)
    ensures a + (b + (c + rest)) == (a + b + c) + rest
  {
  }

  /** The names of the six fields. */
  ghost predicate SixNames(fields: seq<Field>) {
    && |fields| == 6
    && fields[0].name == "qitem" && fields[1].name == "ritem" && fields[2].name == "pitem"
    && fields[3].name == "p" && fields[4].name == "q" && fields[5].name == "r"
  }

  lemma RootPart(g: Graph, root: TypeSpec, fields: seq<Field>, ns: seq<TypeSpec>)
    requires Part(g, root, Struct(fields), "") && SixNames(fields) && g[root].name == "Config" && |ns| == 19 && ns[0] == root
    requires g[root].fields[0].typ == ns[1] && g[root].fields[1].typ == ns[3] && g[root].fields[2].typ == ns[5]
    requires g[root].fields[3].typ == ns[7] && g[root].fields[4].typ == ns[11] && g[root].fields[5].typ == ns[15]
    ensures IsRoot(g, ns)
  {
    var fs := g[root].fields;
    assert forall i :: 0 <= i < 6 ==> fs[i] == FieldSpec(fields[i].name, fs[i].typ);
    assert fs == [fs[0], fs[1], fs[2], fs[3], fs[4], fs[5]];
  }

  const START := Named("p", "q", "r", "pitem", "qitem", "ritem")

  lemma CircleParts(g: Graph, root: TypeSpec, fields: seq<Field>) returns (ns: seq<TypeSpec>)
    requires SixShapes(fields)
    requires Part(g, root, Struct(fields), "") && g[root].name == "Config" && Distinct(PreOrder(g, root, Struct(fields)))
    ensures ns == PreOrder(g, root, Struct(fields)) && Circle(g, ns, START)
  {
    var items := ThreeItems(g, root, fields, "a", "b", "c");
    var rows := ThreeRows(g, root, fields, "a", "b", "c");
    ns := [root] + (items + rows);
    ElementNames();
    CircleAssembled(g, root, fields, ns, items, rows);
  }

  lemma ElementNames()
    ensures ElementName("p", "items") == "pitem" && ElementName("q", "items") == "qitem" && ElementName("r", "items") == "ritem"
  {
  }

  lemma CircleAssembled(g: Graph, root: TypeSpec, fields: seq<Field>, ns: seq<TypeSpec>, its: seq<TypeSpec>, rs: seq<TypeSpec>)
    requires Part(g, root, Struct(fields), "") && SixNames(fields) && g[root].name == "Config"
    requires |its| == 6 && |rs| == 12 && ns == [root] + (its + rs) && Distinct(ns)
    requires IsItem(g, its[0], its[1], "qitem", "a") && IsItem(g, its[2], its[3], "ritem", "b") && IsItem(g, its[4], its[5], "pitem", "c")
    requires IsRow(g, rs[0], rs[1], rs[2], rs[3], "p", "pitem", "a") && IsRow(g, rs[4], rs[5], rs[6], rs[7], "q", "qitem", "b")
    requires IsRow(g, rs[8], rs[9], rs[10], rs[11], "r", "ritem", "c")
    requires g[root].fields[0].typ == its[0] && g[root].fields[1].typ == its[2] && g[root].fields[2].typ == its[4]
    requires g[root].fields[3].typ == rs[0] && g[root].fields[4].typ == rs[4] && g[root].fields[5].typ == rs[8]
    ensures Circle(g, ns, START)
  {
    assert forall i :: 0 <= i < 6 ==> ns[i + 1] == its[i];
    assert forall i :: 0 <= i < 12 ==> ns[i + 7] == rs[i];
    assert ns[1] == its[0] && ns[2] == its[1] && ns[3] == its[2] && ns[4] == its[3] && ns[5] == its[4] && ns[6] == its[5];
    assert ns[7] == rs[0] && ns[8] == rs[1] && ns[9] == rs[2] && ns[10] == rs[3];
    assert ns[11] == rs[4] && ns[12] == rs[5] && ns[13] == rs[6] && ns[14] == rs[7];
    assert ns[15] == rs[8] && ns[16] == rs[9] && ns[17] == rs[10] && ns[18] == rs[11];
    RootPart(g, root, fields, ns);
  }

  ghost predicate SixShapes(fields: seq<Field>) {
    && SixNames(fields)
    && fields[0].shape == Item("a") && fields[1].shape == Item("b") && fields[2].shape == Item("c")
    && fields[3].shape == Row("a") && fields[4].shape == Row("b") && fields[5].shape == Row("c")
  }

  lemma CircleNamed(built: Graph, g: Graph, root: TypeSpec, fields: seq<Field>) returns (ns: seq<TypeSpec>)
    requires SixShapes(fields)
    requires IsBuilt(built, root, Struct(fields)) && IsNamed(built, g, root, Struct(fields))
    ensures ns == Walk(g, root, {}) && g.Keys == Set(ns) && Circle(g, ns, START)
  {
    TreeNodes(built, g, root, Struct(fields));
    ns := CircleParts(g, root, fields);
  }

  lemma CircleSettled(g: Graph, ns: seq<TypeSpec>, nm: Named, i: nat)
    requires Circle(g, ns, nm) && i < 19
    ensures ns[i] in g && g[ns[i]].kind != KindNull
    ensures g[ns[i]].kind == KindStruct ==>
              forall f <- g[ns[i]].fields :: f.typ in g && (g[f.typ].kind == KindSlice ==> g[f.typ].element != null)
  {
  }

  lemma CircleNothing(g: Graph, ns: seq<TypeSpec>, nm: Named)
    requires Circle(g, ns, nm) && g.Keys == Set(ns)
    ensures NothingToFill(g) && forall n <- ns :: n in g
  {
    forall n <- g
      ensures g[n].kind != KindNull
      ensures g[n].kind == KindStruct ==> forall f <- g[n].fields :: f.typ in g && (g[f.typ].kind == KindSlice ==> g[f.typ].element != null)
    {
      var i :| 0 <= i < |ns| && ns[i] == n;
      CircleSettled(g, ns, nm, i);
    }
  }

  lemma CircleSame(g0: Graph, g: Graph, ns: seq<TypeSpec>, nm: Named)
    requires Circle(g0, ns, nm) && forall i {:trigger NodeSame(g0, g, ns[i])} :: 0 <= i < 19 ==> NodeSame(g0, g, ns[i])
    ensures Circle(g, ns, nm)
  {
    assert NodeSame(g0, g, ns[0]) && NodeSame(g0, g, ns[1]) && NodeSame(g0, g, ns[2]) && NodeSame(g0, g, ns[3]);
    assert NodeSame(g0, g, ns[4]) && NodeSame(g0, g, ns[5]) && NodeSame(g0, g, ns[6]) && NodeSame(g0, g, ns[7]);
    assert NodeSame(g0, g, ns[8]) && NodeSame(g0, g, ns[9]) && NodeSame(g0, g, ns[10]) && NodeSame(g0, g, ns[11]);
    assert NodeSame(g0, g, ns[12]) && NodeSame(g0, g, ns[13]) && NodeSame(g0, g, ns[14]) && NodeSame(g0, g, ns[15]);
    assert NodeSame(g0, g, ns[16]) && NodeSame(g0, g, ns[17]) && NodeSame(g0, g, ns[18]);
  }

  /** Where the run stands before deduplicateStructs. */
  lemma CircleResolved(r: Run, root: TypeSpec, fields: seq<Field>) returns (ns: seq<TypeSpec>)
    requires SixShapes(fields) && Prepared(r, root, Struct(fields))
    ensures ns == Walk(r.resolved, root, {}) && Circle(r.resolved, ns, START) && Taggable(r.resolved, Bound(Struct(fields)))
  {
    ns := CircleNamed(r.built, r.named, root, fields);
    CircleNothing(r.named, ns, START);
    var candidates := Resolve.Candidates(r.named, Walk(r.named, root, {}));
    NodesUnfilled(r.named, r.resolved, candidates, ns);
    CircleSame(r.named, r.resolved, ns, START);
    WalkUnfilled(r.named, r.resolved, candidates, root);
    ResolvedStage(r, root, Struct(fields));
  }

  // ---------- keys ----------

  /** The keys: of a row by the name of its element, and of an item. */
  ghost function RowKey(item: string): (r: string)
    ensures r != "" && r[0] == 'i'
  {
    "items" + ":" + ("[]" + ("@" + item)) + ";"
  }

  ghost function ItemKey(k: string): (r: string)
    requires k != ""
    ensures r != "" && r[0] == k[0]
  {
    k + ":" + ("s:" + "int") + ";"
  }

  lemma RowKeysDiffer()
    ensures RowKey("pitem") != RowKey("qitem") && RowKey("qitem") != RowKey("ritem") && RowKey("pitem") != RowKey("ritem")
  {
    assert RowKey("pitem")[9] == 'p' && RowKey("qitem")[9] == 'q' && RowKey("ritem")[9] == 'r';
  }

  lemma ItemKeyOf(g: Graph, n: TypeSpec, t: TypeSpec, name: string, k: string, bound: nat)
    requires Taggable(g, bound) && IsItem(g, n, t, name, k) && k != ""
    ensures ShapeKey(g, n, bound) == ItemKey(k)
  {
    KeyOfOne(g, n, FieldSpec(k, t), bound);
  }

  lemma RowKeyOf(g: Graph, n: TypeSpec, l: TypeSpec, e: TypeSpec, t: TypeSpec, name: string, item: string, k: string, bound: nat)
    requires Taggable(g, bound) && IsRow(g, n, l, e, t, name, item, k) && k != ""
    ensures ShapeKey(g, n, bound) == RowKey(item) && ShapeKey(g, e, bound) == ItemKey(k)
  {
    KeyOfOne(g, n, FieldSpec("items", l), bound);
    StructListTag(g, l, e, bound);
    ItemKeyOf(g, e, t, item, k, bound);
  }

  /** A key begins as the name of the first field. */
  lemma {:induction false} KeyBegins(g: Graph, fields: seq<FieldSpec>, bound: nat)
    requires fields != [] && fields[0].name != "" && forall f <- fields :: Ends(g, f.typ, bound)
    ensures var key := FieldsKey(g, fields, bound); key != "" && key[0] == fields[0].name[0]
  {
    if |fields| > 1 {
      KeyBegins(g, fields[..|fields| - 1], bound);
    }
  }

  lemma RootKey(g: Graph, ns: seq<TypeSpec>, bound: nat)
    requires |ns| == 19 && IsRoot(g, ns) && Taggable(g, bound)
    ensures ShapeKey(g, ns[0], bound) != "" && ShapeKey(g, ns[0], bound)[0] == 'q'
  {
    FieldTypesInside(g, ns[0]);
    KeyBegins(g, g[ns[0]].fields, bound);
  }

  lemma CircleStructs(g: Graph, ns: seq<TypeSpec>, nm: Named)
    requires Circle(g, ns, nm)
    ensures NoStructs(g, ns, 1, 1) && NoStructs(g, ns, 2, 3) && NoStructs(g, ns, 4, 5) && NoStructs(g, ns, 6, 7)
    ensures NoStructs(g, ns, 8, 9) && NoStructs(g, ns, 10, 11) && NoStructs(g, ns, 12, 13) && NoStructs(g, ns, 14, 15)
    ensures NoStructs(g, ns, 16, 17) && NoStructs(g, ns, 18, 19)
  {
  }

  // ---------- one renaming ----------

  function Rename(nm: Named, k: nat, name: string): Named {
    if k == 7 then nm.(p := name) else if k == 9 then nm.(ip := name)
    else if k == 11 then nm.(q := name) else if k == 13 then nm.(iq := name)
    else if k == 15 then nm.(r := name) else nm.(ir := name)
  }

  lemma Renamed1(g: Graph, ns: seq<TypeSpec>, nm: Named, k: nat, name: string)
    requires Circle(g, ns, nm) && k in {7, 9, 11, 13, 15, 17}
    ensures ns[k] in g && Circle(g[ns[k] := g[ns[k]].(name := name)], ns, Rename(nm, k, name))
  {
    if k <= 9 {
      RenamedP(g, ns, nm, k, name);
    } else if k <= 13 {
      RenamedQ(g, ns, nm, k, name);
    } else {
      RenamedR(g, ns, nm, k, name);
    }
  }

  lemma RenamedP(g: Graph, ns: seq<TypeSpec>, nm: Named, k: nat, name: string)
    requires Circle(g, ns, nm) && k in {7, 9}
    ensures ns[k] in g && Circle(g[ns[k] := g[ns[k]].(name := name)], ns, Rename(nm, k, name))
  {
  }

  lemma RenamedQ(g: Graph, ns: seq<TypeSpec>, nm: Named, k: nat, name: string)
    requires Circle(g, ns, nm) && k in {11, 13}
    ensures ns[k] in g && Circle(g[ns[k] := g[ns[k]].(name := name)], ns, Rename(nm, k, name))
  {
  }

  lemma RenamedR(g: Graph, ns: seq<TypeSpec>, nm: Named, k: nat, name: string)
    requires Circle(g, ns, nm) && k in {15, 17}
    ensures ns[k] in g && Circle(g[ns[k] := g[ns[k]].(name := name)], ns, Rename(nm, k, name))
  {
  }

  /** What has been stored: the three items, the first j rows under the names their elements began with,
      and under a key that begins as the root's only the root. */
  ghost predicate Stored(canonical: map<string, TypeSpec>, ns: seq<TypeSpec>, j: nat)
    requires |ns| == 19
  {
    && Holds(canonical, ItemKey("a"), ns[1], true) && Holds(canonical, ItemKey("b"), ns[3], true)
    && Holds(canonical, ItemKey("c"), ns[5], true)
    && Holds(canonical, RowKey("pitem"), ns[7], j > 0) && Holds(canonical, RowKey("qitem"), ns[11], j > 1)
    && Holds(canonical, RowKey("ritem"), ns[15], j > 2)
    && OnlyRoot(canonical, ns[0])
  }

  ghost predicate Holds(canonical: map<string, TypeSpec>, key: string, n: TypeSpec, stored: bool) {
    if stored then key in canonical && canonical[key] == n else key !in canonical
  }

  ghost predicate OnlyRoot(canonical: map<string, TypeSpec>, root: TypeSpec) {
    forall key <- canonical | key != "" && key[0] == 'q' :: canonical[key] == root
  }

  // ---------- the passes ----------

  /** Before visit k the names are nm, and j rows have been stored. */
  ghost predicate Stands(st: PassState, ns: seq<TypeSpec>, k: nat, bound: nat, now: PassState, nm: Named, j: nat) {
    At(st, ns, k, bound, now) && Circle(now.graph, ns, nm) && Stored(now.canonical, ns, j)
  }

  function ItemName(nm: Named, k: nat): string {
    if k == 7 then nm.ip else if k == 11 then nm.iq else nm.ir
  }

  function ItemField(k: nat): string {
    if k == 7 then "a" else if k == 11 then "b" else "c"
  }

  /** The keys of the row ns[k] and of its element. */
  lemma RowKeyAt(g: Graph, ns: seq<TypeSpec>, nm: Named, k: nat, bound: nat)
    requires Circle(g, ns, nm) && Taggable(g, bound) && k in {7, 11, 15}
    ensures ns[k] in g && g[ns[k]].kind == KindStruct && ShapeKey(g, ns[k], bound) == RowKey(ItemName(nm, k))
    ensures ns[k + 2] in g && g[ns[k + 2]].kind == KindStruct && g[ns[k + 2]].name == ItemName(nm, k)
    ensures ShapeKey(g, ns[k + 2], bound) == ItemKey(ItemField(k))
  {
    RowKeyOf(g, ns[7], ns[8], ns[9], ns[10], nm.p, nm.ip, "a", bound);
    RowKeyOf(g, ns[11], ns[12], ns[13], ns[14], nm.q, nm.iq, "b", bound);
    RowKeyOf(g, ns[15], ns[16], ns[17], ns[18], nm.r, nm.ir, "c", bound);
  }

  lemma StoredNext(canonical: map<string, TypeSpec>, ns: seq<TypeSpec>, k: nat, j: nat)
    requires |ns| == 19 && Stored(canonical, ns, j) && ((k == 7 && j == 0) || (k == 11 && j == 1) || (k == 15 && j == 2))
    ensures RowKey(ItemName(START, k)) !in canonical
    ensures Stored(canonical[RowKey(ItemName(START, k)) := ns[k]], ns, j + 1)
  {
    RowKeysDiffer();
  }

  /** The visit of a row whose key is new. */
  lemma RowStored(st: PassState, ns: seq<TypeSpec>, k: nat, bound: nat, now: PassState, nm: Named, j: nat) returns (next: PassState)
    requires Stands(st, ns, k, bound, now, nm, j)
    requires (k == 7 && j == 0) || (k == 11 && j == 1) || (k == 15 && j == 2)
    requires ItemName(nm, k) == ItemName(START, k)
    ensures Stands(st, ns, k + 2, bound, next, nm, j + 1) && next.graph == now.graph && next.changed == now.changed
  {
    CircleStructs(now.graph, ns, nm);
    StoredNext(now.canonical, ns, k, j);
    RowKeyAt(now.graph, ns, nm, k, bound);
    next := VisitNew(st, ns, k, k + 2, bound, now, RowKey(ItemName(nm, k)));
  }

  /** The name of the struct stored under the key of that element, and of the one under the row's key. */
  function NameOfItem(k: nat): string {
    if k == 7 then "qitem" else if k == 11 then "ritem" else "pitem"
  }

  function NextName(nm: Named, k: nat): string {
    if k == 7 then nm.q else if k == 11 then nm.r else nm.p
  }

  lemma ItemHeld(now: PassState, ns: seq<TypeSpec>, nm: Named, k: nat, j: nat) returns (existing: TypeSpec)
    requires Circle(now.graph, ns, nm) && Stored(now.canonical, ns, j) && k in {7, 11, 15}
    ensures ItemKey(ItemField(k)) in now.canonical && now.canonical[ItemKey(ItemField(k))] == existing
    ensures IsCalled(now, existing, NameOfItem(k))
  {
    existing := if k == 7 then ns[1] else if k == 11 then ns[3] else ns[5];
  }

  /** The visit of an element: it gets the name of the item that has its key. */
  lemma ElementRenamed(st: PassState, ns: seq<TypeSpec>, k: nat, bound: nat, now: PassState, nm: Named, j: nat)
    returns (next: PassState)
    requires k in {7, 11, 15} && Stands(st, ns, k + 2, bound, now, nm, j) && ItemName(nm, k) != NameOfItem(k)
    ensures Stands(st, ns, k + 4, bound, next, Rename(nm, k + 2, NameOfItem(k)), j)
    ensures next.canonical == now.canonical && next.changed
  {
    CircleStructs(now.graph, ns, nm);
    RowKeyAt(now.graph, ns, nm, k, bound);
    Renamed1(now.graph, ns, nm, k + 2, NameOfItem(k));
    var existing := ItemHeld(now, ns, nm, k, j);
    next := VisitRenamed(st, ns, k + 2, k + 4, bound, now, ItemKey(ItemField(k)), existing, NameOfItem(k));
  }

  lemma ElementKept(st: PassState, ns: seq<TypeSpec>, k: nat, bound: nat, now: PassState, nm: Named, j: nat)
    requires k in {7, 11, 15} && Stands(st, ns, k + 2, bound, now, nm, j) && ItemName(nm, k) == NameOfItem(k)
    ensures Stands(st, ns, k + 4, bound, now, nm, j)
  {
    CircleStructs(now.graph, ns, nm);
    RowKeyAt(now.graph, ns, nm, k, bound);
    var existing := ItemHeld(now, ns, nm, k, j);
    VisitSame(st, ns, k + 2, k + 4, bound, now, ItemKey(ItemField(k)), existing);
  }

  /** The visit of a row once its element has its new name: the row gets the name of the next one. */
  lemma RowRenamed(st: PassState, ns: seq<TypeSpec>, k: nat, bound: nat, now: PassState, nm: Named) returns (next: PassState)
    requires k in {7, 11, 15} && Stands(st, ns, k, bound, now, nm, 3) && ItemName(nm, k) == NameOfItem(k)
    requires now.graph[ns[k]].name != NextName(nm, k)
    ensures Stands(st, ns, k + 2, bound, next, Rename(nm, k, NextName(nm, k)), 3)
    ensures next.canonical == now.canonical && next.changed
  {
    CircleStructs(now.graph, ns, nm);
    RowKeyAt(now.graph, ns, nm, k, bound);
    Renamed1(now.graph, ns, nm, k, NextName(nm, k));
    var existing := if k == 7 then ns[11] else if k == 11 then ns[15] else ns[7];
    next := VisitRenamed(st, ns, k, k + 2, bound, now, RowKey(NameOfItem(k)), existing, NextName(nm, k));
  }

  /** The visits of the root and of the three items in a first pass. */
  lemma ItemsStored(g: Graph, ns: seq<TypeSpec>, bound: nat, st: PassState) returns (next: PassState)
    requires Circle(g, ns, START) && Taggable(g, bound) && st == PassState(g, map[], false) && forall n <- ns :: n in g
    ensures Stands(st, ns, 7, bound, next, START, 0) && next.graph == g && !next.changed
  {
    CircleStructs(g, ns, START);
    RootKey(g, ns, bound);
    ItemKeyOf(g, ns[1], ns[2], "qitem", "a", bound);
    ItemKeyOf(g, ns[3], ns[4], "ritem", "b", bound);
    ItemKeyOf(g, ns[5], ns[6], "pitem", "c", bound);
    Begin(st, ns, bound);
    var s0 := VisitNew(st, ns, 0, 1, bound, st, ShapeKey(g, ns[0], bound));
    var s1 := VisitNew(st, ns, 1, 3, bound, s0, ItemKey("a"));
    var s3 := VisitNew(st, ns, 3, 5, bound, s1, ItemKey("b"));
    next := VisitNew(st, ns, 5, 7, bound, s3, ItemKey("c"));
    ItemsAreStored(ns, ShapeKey(g, ns[0], bound));
  }

  lemma ItemsAreStored(ns: seq<TypeSpec>, key: string)
    requires |ns| == 19 && key != "" && key[0] == 'q'
    ensures Stored(map[][key := ns[0]][ItemKey("a") := ns[1]][ItemKey("b") := ns[3]][ItemKey("c") := ns[5]], ns, 0)
  {
  }

  /** The visits of the root and of the three items in a later pass. */
  lemma ItemsKept(st: PassState, ns: seq<TypeSpec>, bound: nat, nm: Named) returns (next: PassState)
    requires Stands(st, ns, 0, bound, st, nm, 3)
    ensures Stands(st, ns, 7, bound, next, nm, 3) && next.changed == st.changed
  {
    CircleStructs(st.graph, ns, nm);
    next := RootVisit(st, ns, bound, nm);
    ItemKeyOf(st.graph, ns[1], ns[2], "qitem", "a", bound);
    ItemKeyOf(st.graph, ns[3], ns[4], "ritem", "b", bound);
    ItemKeyOf(st.graph, ns[5], ns[6], "pitem", "c", bound);
    VisitSame(st, ns, 1, 3, bound, next, ItemKey("a"), ns[1]);
    VisitSame(st, ns, 3, 5, bound, next, ItemKey("b"), ns[3]);
    VisitSame(st, ns, 5, 7, bound, next, ItemKey("c"), ns[5]);
  }

  lemma RootVisit(st: PassState, ns: seq<TypeSpec>, bound: nat, nm: Named) returns (next: PassState)
    requires Stands(st, ns, 0, bound, st, nm, 3)
    ensures Stands(st, ns, 1, bound, next, nm, 3) && next.graph == st.graph && next.changed == st.changed
  {
    CircleStructs(st.graph, ns, nm);
    RootKey(st.graph, ns, bound);
    var key := ShapeKey(st.graph, ns[0], bound);
    if key in st.canonical {
      VisitSame(st, ns, 0, 1, bound, st, key, ns[0]);
      next := st;
    } else {
      next := VisitNew(st, ns, 0, 1, bound, st, key);
    }
  }

  const ROTATED := Named("p", "q", "r", "qitem", "ritem", "pitem")

  /** The visits of a row and of its element in a first pass. */
  lemma FirstRow(st: PassState, ns: seq<TypeSpec>, k: nat, bound: nat, now: PassState, nm: Named, j: nat) returns (next: PassState)
    requires Stands(st, ns, k, bound, now, nm, j) && ItemName(nm, k) == ItemName(START, k)
    requires (k == 7 && j == 0) || (k == 11 && j == 1) || (k == 15 && j == 2)
    ensures Stands(st, ns, k + 4, bound, next, Rename(nm, k + 2, NameOfItem(k)), j + 1) && next.changed
  {
    var stored := RowStored(st, ns, k, bound, now, nm, j);
    next := ElementRenamed(st, ns, k, bound, stored, nm, j + 1);
  }

  /** The first pass stores the rows and hands round the names of their elements. */
  lemma FirstPass(g: Graph, ns: seq<TypeSpec>, bound: nat) returns (r: PassState)
    requires Circle(g, ns, START) && Taggable(g, bound) && forall n <- ns :: n in g
    ensures r == PassOver(PassState(g, map[], false), ns, bound)
    ensures r.changed && Circle(r.graph, ns, ROTATED) && Stored(r.canonical, ns, 3)
  {
    var st := PassState(g, map[], false);
    var s7 := ItemsStored(g, ns, bound, st);
    var nm1 := Rename(START, 9, "qitem");
    var nm2 := Rename(nm1, 13, "ritem");
    var s11 := FirstRow(st, ns, 7, bound, s7, START, 0);
    var s15 := FirstRow(st, ns, 11, bound, s11, nm1, 1);
    r := FirstRow(st, ns, 15, bound, s15, nm2, 2);
    assert Rename(nm2, 17, "pitem") == ROTATED;
    Finish(st, ns, bound, r);
  }

  /** The elements have their new names, p and q have different ones, and so have q and r. */
  ghost predicate Turning(st: PassState, ns: seq<TypeSpec>, nm: Named) {
    && Circle(st.graph, ns, nm) && Stored(st.canonical, ns, 3)
    && nm.ip == "qitem" && nm.iq == "ritem" && nm.ir == "pitem" && nm.p != nm.q && nm.q != nm.r
  }

  /** Every later pass hands round the names of the rows. */
  lemma NextTurn(st: PassState, ns: seq<TypeSpec>, bound: nat, nm: Named) returns (r: PassState)
    requires ValidState(st, bound) && !st.changed && (forall n <- ns :: n in st.graph) && Turning(st, ns, nm)
    ensures r == PassOver(st, ns, bound) && r.changed && Turning(r, ns, nm.(p := nm.q, q := nm.r, r := nm.q))
  {
    Begin(st, ns, bound);
    r := ItemsKept(st, ns, bound, nm);
    r := RowRenamed(st, ns, 7, bound, r, nm);
    var nm1 := nm.(p := nm.q);
    ElementKept(st, ns, 7, bound, r, nm1, 3);
    r := RowRenamed(st, ns, 11, bound, r, nm1);
    var nm2 := nm1.(q := nm.r);
    ElementKept(st, ns, 11, bound, r, nm2, 3);
    r := RowRenamed(st, ns, 15, bound, r, nm2);
    ElementKept(st, ns, 15, bound, r, nm2.(r := nm.q), 3);
    Finish(st, ns, bound, r);
  }

  lemma AfterFirst(states: seq<PassState>, g: Graph, ns: seq<TypeSpec>, bound: nat)
    requires Circle(g, ns, START) && Taggable(g, bound)
    requires Passes(states, ns, bound) && states[0] == PassState(g, map[], false) && |states| > 1
    ensures states[1].changed && Turning(states[1], ns, ROTATED)
  {
    StateAfter(states, ns, bound, 0);
    var r := FirstPass(g, ns, bound);
  }

  lemma AfterTurn(states: seq<PassState>, ns: seq<TypeSpec>, bound: nat, k: nat, nm: Named)
    requires Passes(states, ns, bound) && k + 1 < |states| && Turning(states[k], ns, nm)
    ensures states[k + 1].changed && Turning(states[k + 1], ns, nm.(p := nm.q, q := nm.r, r := nm.q))
  {
    StateAfter(states, ns, bound, k);
    var r := NextTurn(states[k].(changed := false), ns, bound, nm);
  }

  lemma {:induction false} AllTurning(states: seq<PassState>, g: Graph, ns: seq<TypeSpec>, bound: nat, k: nat) returns (nm: Named)
    requires Circle(g, ns, START) && Taggable(g, bound)
    requires Passes(states, ns, bound) && states[0] == PassState(g, map[], false) && 0 < k < |states|
    ensures states[k].changed && Turning(states[k], ns, nm)
  {
    if k == 1 {
      AfterFirst(states, g, ns, bound);
      nm := ROTATED;
    } else {
      var nm' := AllTurning(states, g, ns, bound, k - 1);
      AfterTurn(states, ns, bound, k - 1, nm');
      nm := nm'.(p := nm'.q, q := nm'.r, r := nm'.q);
    }
  }

  lemma CircleShapes()
    ensures SixShapes(FIELDS) && CIRCLE == Struct(FIELDS)
  {
  }

  lemma NeverEnds(r: Run, root: TypeSpec, fields: seq<Field>)
    requires SixShapes(fields) && Prepared(r, root, Struct(fields))
    ensures !Ended(r.states) && (forall i :: 0 < i < |r.states| ==> r.states[i].changed) && !Finished(r, root, Struct(fields))
  {
    var ns := CircleResolved(r, root, fields);
    forall i | 0 < i < |r.states|
      ensures r.states[i].changed
    {
      var nm := AllTurning(r.states, r.resolved, ns, Bound(Struct(fields)), i);
    }
  }

  /** On this document deduplicateStructs never returns: every one of its passes changes something. So
      finalize does not return either. */
  lemma NamesNeverSettle(r: Run, root: TypeSpec)
    requires Prepared(r, root, CIRCLE)
    ensures Infer.UnionThemes([Some(CIRCLE_DOC)]) == Success(Some(CIRCLE))
    ensures !Ended(r.states) && (forall i :: 0 < i < |r.states| ==> r.states[i].changed) && !Finished(r, root, CIRCLE)
  {
    CircleInferred();
    CircleShapes();
    NeverEnds(r, root, FIELDS);
  }
}
