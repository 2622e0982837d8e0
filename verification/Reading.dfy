/** What the generated file reads: types refer to each other by name, and of structs that share a name
    only the first is written (cmd/themegen/config_infer.go, cmd/themegen/config_emit.go). */
module Reading {
  import opened Sets
  import opened Wrappers
  import opened TypeGraph
  import opened Naming
  import opened GraphSameShape
  import opened Emit
  import Shapes

  // ---------- the file ----------

  /** A type as it is written: so many pairs of brackets, and a name. */
  datatype Written = Written(depth: nat, base: string)

  datatype Line = Line(name: string, typ: Written)

  datatype Decl = Decl(name: string, fields: seq<Line>)

  /** What goType writes. */
  ghost function Spelled(g: Graph, t: TypeSpec, bound: nat): Written
    requires Ends(g, t, bound)
    decreases bound
  {
    match g[t].kind
    case KindScalar => Written(0, g[t].scalar)
    case KindSlice =>
      if g[t].element == null then Written(1, "any") else
        var w := Spelled(g, g[t].element, bound - 1);
        Written(w.depth + 1, w.base)
    case KindStruct => Written(0, g[t].name)
    case KindNull => Written(0, "string")
  }

  lemma {:induction false} GoTypeWrites(g: Graph, t: TypeSpec, bound: nat)
    requires Ends(g, t, bound)
    ensures var w := Spelled(g, t, bound); GoType(g, t, bound + 1) == Some(Brackets(w.depth) + w.base)
    decreases bound
  {
    var w := Spelled(g, t, bound);
    if g[t].kind == KindSlice {
      var depth: nat := w.depth - 1;
      OneMoreBracket(depth, w.base);
      if g[t].element != null {
        GoTypeWrites(g, g[t].element, bound - 1);
        GoTypeOfList(g, t, bound, Brackets(depth) + w.base);
      } else {
        assert "[]" + "any" == "[]any";
      }
    } else {
      assert Brackets(0) + w.base == w.base;
    }
  }

  lemma GoTypeOfList(g: Graph, t: TypeSpec, calls: nat, element: string)
    requires t in g && g[t].kind == KindSlice && g[t].element != null && GoType(g, g[t].element, calls) == Some(element)
    ensures GoType(g, t, calls + 1) == Some("[]" + element)
  {
  }

  lemma OneMoreBracket(depth: nat, base: string)
    ensures Brackets(depth + 1) + base == "[]" + (Brackets(depth) + base)
    ensures Brackets(0) + base == base
  {
    assert Brackets(depth + 1) == "[]" + Brackets(depth);
  }

  ghost function Lines(g: Graph, fields: seq<FieldSpec>, bound: nat): (r: seq<Line>)
    requires forall f <- fields :: Ends(g, f.typ, bound)
    ensures |r| == |fields|
    ensures forall i :: 0 <= i < |fields| ==> r[i] == Line(fields[i].name, Spelled(g, fields[i].typ, bound))
  {
    seq(|fields|, i requires 0 <= i < |fields| => assert fields[i] in fields; Line(fields[i].name, Spelled(g, fields[i].typ, bound)))
  }

  /** The type written for a struct. */
  ghost function DeclOf(g: Graph, n: TypeSpec, bound: nat): Decl
    requires Taggable(g, bound) && n in g && g[n].kind == KindStruct
  {
    FieldTypesInside(g, n);
    Decl(g[n].name, Lines(g, g[n].fields, bound))
  }

  ghost function Decls(g: Graph, types: seq<Emitted>, bound: nat): (r: seq<Decl>)
    requires forall t <- types :: forall f <- t.fields :: Ends(g, f.typ, bound)
    ensures |r| == |types| && forall i :: 0 <= i < |types| ==> r[i] == Decl(types[i].name, Lines(g, types[i].fields, bound))
  {
    seq(|types|, i requires 0 <= i < |types| => assert types[i] in types; Decl(types[i].name, Lines(g, types[i].fields, bound)))
  }

  /** The types of the generated file, in its order. */
  ghost function File(g: Graph, root: TypeSpec, bound: nat): seq<Decl>
    requires Taggable(g, bound) && root in g
  {
    EmittedMembers(g, root, bound);
    Decls(g, Ordered(Emission(g, root)), bound)
  }

  lemma EmittedMembers(g: Graph, root: TypeSpec, bound: nat)
    requires Taggable(g, bound) && root in g
    ensures var out := Ordered(Emission(g, root));
            && OncePerName(out) && TypeNames(out) == TypeNames(Emission(g, root))
            && forall t <- out ::
                 && (exists n <- Walk(g, root, {}) :: IsCopyOf(g, n, t))
                 && forall f <- t.fields :: Ends(g, f.typ, bound)
  {
    var calls, types := Walk(g, root, {}), Emission(g, root);
    WalkFresh(g, root, {});
    CollectedExact(g, calls);
    OrderedMembers(types);
    forall t <- Ordered(types)
      ensures exists n <- calls :: IsCopyOf(g, n, t)
      ensures forall f <- t.fields :: Ends(g, f.typ, bound)
    {
      assert t in types;
      CopyEnds(g, calls, t, bound);
    }
  }

  lemma CopyEnds(g: Graph, calls: seq<TypeSpec>, t: Emitted, bound: nat)
    requires Taggable(g, bound) && exists n <- calls :: IsCopyOf(g, n, t)
    ensures forall f <- t.fields :: Ends(g, f.typ, bound)
  {
    var n :| n in calls && IsCopyOf(g, n, t);
    FieldTypesInside(g, n);
  }

  lemma OrderedMembers(types: seq<Emitted>)
    requires OncePerName(types)
    ensures OncePerName(Ordered(types)) && TypeNames(Ordered(types)) == TypeNames(types)
    ensures (forall t <- Ordered(types) :: t in types) && forall t <- types :: t in Ordered(types)
  {
    ConfigOnce(types);
    OrderIsPermutation(types);
    SameMembers(types, Ordered(types));
    OrderedOncePerName(types);
  }

  ghost predicate Declares(file: seq<Decl>, name: string) {
    exists decl <- file :: decl.name == name
  }

  ghost predicate Unambiguous(file: seq<Decl>) {
    forall i, j :: 0 <= i < j < |file| ==> file[i].name != file[j].name
  }

  ghost predicate IsDeclOf(g: Graph, n: TypeSpec, bound: nat, decl: Decl)
    requires Taggable(g, bound)
  {
    n in g && g[n].kind == KindStruct && decl == DeclOf(g, n, bound)
  }

  /** The file has one type for each name of a visited struct, and that is the type of such a struct. */
  lemma FileExactly(g: Graph, root: TypeSpec, bound: nat)
    requires Taggable(g, bound) && root in g
    ensures var file := File(g, root, bound);
            && Unambiguous(file)
            && (forall decl <- file :: exists n <- Walk(g, root, {}) :: IsDeclOf(g, n, bound, decl))
            && (forall n <- Walk(g, root, {}) | n in g && g[n].kind == KindStruct :: Declares(file, g[n].name))
  {
    var calls, out, file := Walk(g, root, {}), Ordered(Emission(g, root)), File(g, root, bound);
    EmittedMembers(g, root, bound);
    forall decl <- file
      ensures exists n <- calls :: IsDeclOf(g, n, bound, decl)
    {
      var i :| 0 <= i < |file| && file[i] == decl;
      assert out[i] in out;
      var n :| n in calls && IsCopyOf(g, n, out[i]);
      assert IsDeclOf(g, n, bound, decl);
    }
    forall n <- calls | n in g && g[n].kind == KindStruct
      ensures Declares(file, g[n].name)
    {
      VisitedDeclared(g, root, bound, n);
    }
  }

  lemma VisitedDeclared(g: Graph, root: TypeSpec, bound: nat, n: TypeSpec)
    requires Taggable(g, bound) && root in g && n in Walk(g, root, {}) && n in g && g[n].kind == KindStruct
    ensures Declares(File(g, root, bound), g[n].name)
  {
    var out, file := Ordered(Emission(g, root)), File(g, root, bound);
    EmittedMembers(g, root, bound);
    WalkFresh(g, root, {});
    CollectedExact(g, Walk(g, root, {}));
    assert g[n].name in TypeNames(out);
    var t :| t in out && t.name == g[n].name;
    var i :| 0 <= i < |out| && out[i] == t;
    assert file[i] in file;
  }

  /** Of the visited structs of one name it is the first. */
  lemma FirstDeclared(g: Graph, root: TypeSpec, bound: nat, i: nat)
    requires Taggable(g, bound) && root in g && i < |Walk(g, root, {})|
    requires forall n <- Walk(g, root, {}) :: n in g
    requires var calls := Walk(g, root, {});
             && g[calls[i]].kind == KindStruct
             && forall j :: 0 <= j < i ==> g[calls[j]].kind != KindStruct || g[calls[j]].name != g[calls[i]].name
    ensures DeclOf(g, Walk(g, root, {})[i], bound) in File(g, root, bound)
  {
    var n, types := Walk(g, root, {})[i], Emission(g, root);
    EmittedMembers(g, root, bound);
    CollectedFirst(g, Walk(g, root, {}), i);
    EmittedOnce(g, root);
    OrderedMembers(types);
    var j :| 0 <= j < |Ordered(types)| && Ordered(types)[j] == Emitted(g[n].name, g[n].fields);
    assert File(g, root, bound)[j] == DeclOf(g, n, bound);
  }

  lemma EmittedOnce(g: Graph, root: TypeSpec)
    requires Closed(g) && root in g
    ensures OncePerName(Emission(g, root))
  {
    WalkFresh(g, root, {});
    CollectedExact(g, Walk(g, root, {}));
  }

  // ---------- what it reads ----------

  /** A name that is not declared in the file is that of a type of the language. */
  ghost predicate IsAny(file: seq<Decl>, w: Written) {
    w == Written(0, "any") && !Declares(file, "any")
  }

  /** The document is read into the type with no error and nothing dropped. */
  ghost predicate Reads(file: seq<Decl>, w: Written, d: Shapes.Doc)
    decreases d
  {
    IsAny(file, w) ||
    match d
    case NullDoc => true
    case ScalarDoc(kind) => w.depth == 0 && !Declares(file, w.base) && Shapes.ScalarFits(kind, w.base)
    case SequenceDoc(items) => w.depth > 0 && forall i <- items :: Reads(file, Written(w.depth - 1, w.base), i)
    case MappingDoc(entries) =>
      w.depth == 0 && Declares(file, w.base) && forall e <- entries :: ReadsEntry(file, w.base, e)
    case UnsupportedDoc => false
  }

  ghost predicate ReadsEntry(file: seq<Decl>, name: string, e: Shapes.Entry)
    decreases e
  {
    e.key.StringKey? && exists decl <- file :: decl.name == name && ReadsField(decl.fields, file, e)
  }

  ghost predicate ReadsField(lines: seq<Line>, file: seq<Decl>, e: Shapes.Entry)
    requires e.key.StringKey?
    decreases e, 0
  {
    exists l <- lines :: l.name == e.key.name && Reads(file, l.typ, e.value)
  }

  // ---------- nodes that do not share names ----------

  /** As Admits, but []any, written for an element-less slice, reads any list, and string, written for
      a null, also reads a string. Each struct is taken with its own fields, whoever shares its name. */
  ghost predicate NodeReads(g: Graph, n: TypeSpec, d: Shapes.Doc)
    requires Closed(g) && n in g
    decreases d
  {
    match d
    case NullDoc => true
    case ScalarDoc(kind) =>
      if g[n].kind == KindNull then kind == Shapes.StringNode
      else g[n].kind == KindScalar && Shapes.ScalarFits(kind, g[n].scalar)
    case SequenceDoc(items) =>
      && g[n].kind == KindSlice
      && (g[n].element != null ==>
            g[n].element in Children(g[n]) && forall i <- items :: NodeReads(g, g[n].element, i))
    case MappingDoc(entries) =>
      g[n].kind == KindStruct && forall e <- entries :: NodeReadsEntry(g, g[n].fields, e)
    case UnsupportedDoc => false
  }

  ghost predicate NodeReadsEntry(g: Graph, fields: seq<FieldSpec>, e: Shapes.Entry)
    requires Closed(g)
    decreases e
  {
    e.key.StringKey? && exists f <- fields :: f.name == e.key.name && f.typ in g && NodeReads(g, f.typ, e.value)
  }

  /** What the graph admits can be read so. */
  lemma {:induction false} AdmitsReads(g: Graph, n: TypeSpec, d: Shapes.Doc)
    requires Closed(g) && n in g && Admits(g, n, d)
    ensures NodeReads(g, n, d)
    decreases d
  {
    match d
    case SequenceDoc(items) =>
      if g[n].element != null {
        forall i <- items
          ensures NodeReads(g, g[n].element, i)
        {
          AdmitsReads(g, g[n].element, i);
        }
      }
    case MappingDoc(entries) =>
      forall e <- entries
        ensures NodeReadsEntry(g, g[n].fields, e)
      {
        assert AdmitsEntry(g, g[n].fields, e);
        var f :| f in g[n].fields && f.name == e.key.name && f.typ in g && Admits(g, f.typ, e.value);
        AdmitsReads(g, f.typ, e.value);
      }
    case _ =>
  }

  /** Visited structs of one name have the same lines, and no struct bears the name of a type of the
      language that is written somewhere. */
  ghost predicate NamesAgree(g: Graph, root: TypeSpec, bound: nat)
    requires Taggable(g, bound) && root in g
  {
    var calls := Walk(g, root, {});
    && (forall n <- calls, m <- calls | n in g && m in g && g[n].kind == g[m].kind == KindStruct && g[n].name == g[m].name ::
          SameLines(DeclOf(g, n, bound), DeclOf(g, m, bound)))
    && (forall n <- calls, m <- calls | n in g && m in g && g[n].kind == KindStruct && Basic(g[m]).Some? ::
          Basic(g[m]) != Some(g[n].name))
    && (forall m <- calls | m in g :: g[m].kind == KindScalar ==> g[m].scalar != "any")
  }

  ghost predicate SameLines(a: Decl, b: Decl) {
    forall l :: l in a.fields <==> l in b.fields
  }

  /** The type of the language that is written for the node or below it. */
  ghost function Basic(n: Node): Option<string> {
    match n.kind
    case KindScalar => Some(n.scalar)
    case KindSlice => if n.element == null then Some("any") else None
    case KindStruct => None
    case KindNull => Some("string")
  }

  /** The node is a struct with the fields listed under its name, or bears none of these names. */
  ghost predicate Listed(n: Node, byName: map<string, seq<FieldSpec>>) {
    if n.kind == KindStruct then n.name in byName && n.fields == byName[n.name]
    else (Basic(n).Some? ==> Basic(n).value !in byName) && (n.kind == KindScalar ==> n.scalar != "any")
  }

  /** Names agree where the fields of a struct are determined by its name. */
  lemma FieldsByName(g: Graph, root: TypeSpec, bound: nat, byName: map<string, seq<FieldSpec>>)
    requires Taggable(g, bound) && root in g && forall n <- Walk(g, root, {}) :: n in g && Listed(g[n], byName)
    ensures NamesAgree(g, root, bound)
  {
  }

  lemma NotDeclared(g: Graph, root: TypeSpec, bound: nat, n: TypeSpec)
    requires Taggable(g, bound) && root in g && NamesAgree(g, root, bound)
    requires n in Walk(g, root, {}) && n in g && Basic(g[n]).Some?
    ensures !Declares(File(g, root, bound), Basic(g[n]).value)
  {
    FileExactly(g, root, bound);
  }

  lemma ChildVisited(g: Graph, root: TypeSpec, n: TypeSpec, c: TypeSpec)
    requires Closed(g) && root in g && n in Walk(g, root, {}) && n in g && c in Children(g[n])
    ensures c in Walk(g, root, {}) && c in g
  {
    WalkComplete(g, root, {});
    assert c in {} + Set(Walk(g, root, {}));
  }

  /** There the file reads at every node exactly what the node would with its own fields. */
  lemma {:induction false} AgreedReads(g: Graph, root: TypeSpec, bound: nat, n: TypeSpec, d: Shapes.Doc)
    requires Taggable(g, bound) && root in g && NamesAgree(g, root, bound) && n in Walk(g, root, {}) && n in g
    ensures Reads(File(g, root, bound), Spelled(g, n, bound), d) <==> NodeReads(g, n, d)
    decreases d, 1
  {
    var file := File(g, root, bound);
    if Basic(g[n]).Some? {
      NotDeclared(g, root, bound, n);
    }
    match g[n].kind
    case KindStruct => StructReads(g, root, bound, n, d);
    case KindSlice => SliceReads(g, root, bound, n, d);
    case _ =>
  }

  lemma {:induction false} SliceReads(g: Graph, root: TypeSpec, bound: nat, n: TypeSpec, d: Shapes.Doc)
    requires Taggable(g, bound) && root in g && NamesAgree(g, root, bound) && n in Walk(g, root, {}) && n in g
    requires g[n].kind == KindSlice && (g[n].element == null ==> !Declares(File(g, root, bound), "any"))
    ensures Reads(File(g, root, bound), Spelled(g, n, bound), d) <==> NodeReads(g, n, d)
    decreases d, 0
  {
    if d.SequenceDoc? && g[n].element != null {
      var e, w := g[n].element, Spelled(g, n, bound);
      ChildVisited(g, root, n, e);
      EndsLater(g, e, bound - 1, bound);
      SpelledLater(g, e, bound - 1, bound);
      assert Written(w.depth - 1, w.base) == Spelled(g, e, bound);
      forall i <- d.items
        ensures Reads(File(g, root, bound), Written(w.depth - 1, w.base), i) <==> NodeReads(g, e, i)
      {
        AgreedReads(g, root, bound, e, i);
      }
    }
  }

  lemma {:induction false} SpelledLater(g: Graph, t: TypeSpec, k: nat, k': nat)
    requires Ends(g, t, k) && Ends(g, t, k') && k <= k'
    ensures Spelled(g, t, k) == Spelled(g, t, k')
    decreases k
  {
    if g[t].kind == KindSlice && g[t].element != null {
      SpelledLater(g, g[t].element, k - 1, k' - 1);
    }
  }

  lemma {:induction false} StructReads(g: Graph, root: TypeSpec, bound: nat, n: TypeSpec, d: Shapes.Doc)
    requires Taggable(g, bound) && root in g && NamesAgree(g, root, bound) && n in Walk(g, root, {}) && n in g
    requires g[n].kind == KindStruct
    ensures Reads(File(g, root, bound), Spelled(g, n, bound), d) <==> NodeReads(g, n, d)
    decreases d, 0
  {
    var file := File(g, root, bound);
    FileExactly(g, root, bound);
    assert Declares(file, g[n].name);
    if d.MappingDoc? {
      forall e <- d.entries
        ensures ReadsEntry(file, g[n].name, e) <==> NodeReadsEntry(g, g[n].fields, e)
      {
        EntryReads(g, root, bound, n, e);
      }
    }
  }

  lemma {:induction false} EntryReads(g: Graph, root: TypeSpec, bound: nat, n: TypeSpec, e: Shapes.Entry)
    requires Taggable(g, bound) && root in g && NamesAgree(g, root, bound) && n in Walk(g, root, {}) && n in g
    requires g[n].kind == KindStruct
    ensures ReadsEntry(File(g, root, bound), g[n].name, e) <==> NodeReadsEntry(g, g[n].fields, e)
    decreases e, 1
  {
    if e.key.StringKey? {
      var file, fields, lines := File(g, root, bound), g[n].fields, DeclOf(g, n, bound).fields;
      DeclReads(g, root, bound, n, e);
      forall i | 0 <= i < |fields|
        ensures LineAgrees(g, file, fields[i], lines[i], e.value)
      {
        LineReads(g, root, bound, n, i, e);
      }
      LinesRead(g, file, fields, lines, e);
    }
  }

  /** The line reads the value iff the node of the field does. */
  ghost predicate LineAgrees(g: Graph, file: seq<Decl>, f: FieldSpec, l: Line, d: Shapes.Doc)
    requires Closed(g)
  {
    f.typ in g && l.name == f.name && (Reads(file, l.typ, d) <==> NodeReads(g, f.typ, d))
  }

  /** Whichever struct of the name is written, it has the lines of n. */
  lemma DeclReads(g: Graph, root: TypeSpec, bound: nat, n: TypeSpec, e: Shapes.Entry)
    requires Taggable(g, bound) && root in g && NamesAgree(g, root, bound) && n in Walk(g, root, {}) && n in g
    requires g[n].kind == KindStruct && e.key.StringKey?
    ensures var file := File(g, root, bound);
            ReadsEntry(file, g[n].name, e) <==> ReadsField(DeclOf(g, n, bound).fields, file, e)
  {
    var file := File(g, root, bound);
    FileExactly(g, root, bound);
    assert Declares(file, g[n].name);
    forall decl <- file | decl.name == g[n].name
      ensures SameLines(decl, DeclOf(g, n, bound))
    {
      var m :| m in Walk(g, root, {}) && IsDeclOf(g, m, bound, decl);
    }
  }

  lemma LinesRead(g: Graph, file: seq<Decl>, fields: seq<FieldSpec>, lines: seq<Line>, e: Shapes.Entry)
    requires Closed(g) && |fields| == |lines| && e.key.StringKey?
    requires forall i :: 0 <= i < |fields| ==> LineAgrees(g, file, fields[i], lines[i], e.value)
    ensures ReadsField(lines, file, e) <==> NodeReadsEntry(g, fields, e)
  {
    if ReadsField(lines, file, e) {
      var l :| l in lines && l.name == e.key.name && Reads(file, l.typ, e.value);
      var i :| 0 <= i < |lines| && lines[i] == l;
      assert LineAgrees(g, file, fields[i], lines[i], e.value) && fields[i] in fields;
    }
    if NodeReadsEntry(g, fields, e) {
      var f :| f in fields && f.name == e.key.name && f.typ in g && NodeReads(g, f.typ, e.value);
      var i :| 0 <= i < |fields| && fields[i] == f;
      assert LineAgrees(g, file, fields[i], lines[i], e.value) && lines[i] in lines;
    }
  }

  lemma {:induction false} LineReads(g: Graph, root: TypeSpec, bound: nat, n: TypeSpec, i: nat, e: Shapes.Entry)
    requires Taggable(g, bound) && root in g && NamesAgree(g, root, bound) && n in Walk(g, root, {}) && n in g
    requires g[n].kind == KindStruct && i < |g[n].fields|
    ensures LineAgrees(g, File(g, root, bound), g[n].fields[i], DeclOf(g, n, bound).fields[i], e.value)
    decreases e, 0
  {
    var f := g[n].fields[i];
    assert f.typ == Children(g[n])[i];
    ChildVisited(g, root, n, f.typ);
    AgreedReads(g, root, bound, f.typ, e.value);
  }

  /** One yes of sameShape loses nothing for the types so taken, whatever elements are unknown. */
  lemma {:induction false} SameReads(g: Graph, a: TypeSpec, b: TypeSpec, calls: nat, d: Shapes.Doc)
    requires Closed(g) && a in g && b in g && SameShape(g, a, b, calls) == Some(true)
    requires Admits(g, a, d)
    ensures NodeReads(g, b, d)
    decreases d
  {
    match d
    case SequenceDoc(items) =>
      if g[b].element != null {
        assert g[b].element in Children(g[b]);
        if g[a].element != null {
          forall i <- items
            ensures NodeReads(g, g[b].element, i)
          {
            SameReads(g, g[a].element, g[b].element, calls - 1, i);
          }
        }
      }
    case MappingDoc(entries) =>
      FieldTypesInside(g, b);
      forall e <- entries
        ensures NodeReadsEntry(g, g[b].fields, e)
      {
        assert AdmitsEntry(g, g[a].fields, e);
        SameReadsEntry(g, g[a].fields, g[b].fields, calls - 1, e);
      }
    case _ =>
  }

  lemma {:induction false} SameReadsEntry(g: Graph, fields: seq<FieldSpec>, others: seq<FieldSpec>, calls: nat, e: Shapes.Entry)
    requires Closed(g) && forall f <- others :: f.typ in g
    requires SameFields(g, fields, others, calls) == Some(true)
    requires AdmitsEntry(g, fields, e)
    ensures NodeReadsEntry(g, others, e)
    decreases e
  {
    var f :| f in fields && f.name == e.key.name && f.typ in g && Admits(g, f.typ, e.value);
    SameFieldsExact(g, fields, others, calls);
    var t := LastType(others, f.name);
    assert FieldSpec(f.name, t) in others;
    SameReads(g, f.typ, t, calls, e.value);
  }

  /** So a yes loses no document for the file where names agree. */
  lemma SameWritten(g: Graph, root: TypeSpec, bound: nat, a: TypeSpec, b: TypeSpec, calls: nat, d: Shapes.Doc)
    requires Taggable(g, bound) && root in g && NamesAgree(g, root, bound) && b in Walk(g, root, {})
    requires a in g && b in g && SameShape(g, a, b, calls) == Some(true) && Admits(g, a, d)
    ensures Reads(File(g, root, bound), Spelled(g, b, bound), d)
  {
    SameReads(g, a, b, calls, d);
    AgreedReads(g, root, bound, b, d);
  }
}
