/** The two passes of finalize that only rename: assignNames and deduplicateStructs
    (cmd/themegen/config_infer.go). */
module Naming {
  import opened Wrappers
  import opened TypeGraph
  import opened Trees
  import Shapes

  const CONFIG_TYPE_NAME := "Config"
  const CHILDREN_KEY := "Children"

  /** Names may differ, everything else is the same. */
  ghost predicate Renamed(g: Graph, g': Graph) {
    && g'.Keys == g.Keys
    && forall n {:trigger g'[n]} | n in g :: g'[n] == g[n].(name := g'[n].name)
  }

  lemma RenamedTransitive(g: Graph, g': Graph, g'': Graph)
    requires Renamed(g, g') && Renamed(g', g'')
    ensures Renamed(g, g'')
  {
  }

  lemma RenamedClosed(g: Graph, g': Graph)
    requires Closed(g) && Renamed(g, g')
    ensures Closed(g')
  {
    forall n <- g'
      ensures forall c <- Children(g'[n]) :: c in g'
    {
      assert Children(g'[n]) == Children(g[n]);
    }
  }

  /** Documents do not see names. */
  lemma {:induction false} RenamedAdmits(g: Graph, g': Graph, n: TypeSpec, d: Shapes.Doc)
    requires Closed(g) && Closed(g') && Renamed(g, g') && n in g
    ensures Admits(g', n, d) <==> Admits(g, n, d)
    decreases d
  {
    assert g'[n] == g[n].(name := g'[n].name);
    match d
    case SequenceDoc(items) =>
      if g[n].kind == KindSlice && g[n].element != null {
        assert g[n].element in Children(g[n]) && g'[n].element in Children(g'[n]);
        forall i <- items
          ensures Admits(g', g[n].element, i) <==> Admits(g, g[n].element, i)
        {
          RenamedAdmits(g, g', g[n].element, i);
        }
      }
    case MappingDoc(entries) =>
      forall e <- entries
        ensures AdmitsEntry(g', g[n].fields, e) <==> AdmitsEntry(g, g[n].fields, e)
      {
        RenamedAdmitsEntry(g, g', g[n].fields, e);
      }
    case _ =>
  }

  lemma {:induction false} RenamedAdmitsEntry(g: Graph, g': Graph, fields: seq<FieldSpec>, e: Shapes.Entry)
    requires Closed(g) && Closed(g') && Renamed(g, g')
    ensures AdmitsEntry(g', fields, e) <==> AdmitsEntry(g, fields, e)
    decreases e
  {
    forall f <- fields | f.typ in g
      ensures Admits(g', f.typ, e.value) <==> Admits(g, f.typ, e.value)
    {
      RenamedAdmits(g, g', f.typ, e.value);
    }
  }

  lemma {:induction false} RenamedRepresents(g: Graph, g': Graph, n: TypeSpec, s: Shapes.Shape)
    requires Renamed(g, g') && Represents(g, n, s)
    ensures Represents(g', n, s)
    decreases s
  {
    assert g'[n] == g[n].(name := g'[n].name);
    match s
    case Slice(Some(e)) => RenamedRepresents(g, g', g[n].element, e);
    case Struct(fields) =>
      forall i | 0 <= i < |fields|
        ensures Represents(g', g[n].fields[i].typ, fields[i].shape)
      {
        RenamedRepresents(g, g', g[n].fields[i].typ, fields[i].shape);
      }
    case _ =>
  }

  // ---------- assignNames ----------

  function Singularize(parent: string, field: string): (r: string)
    ensures r != ""
  {
    if field == CHILDREN_KEY && parent != "" && parent != CONFIG_TYPE_NAME then parent else
    var candidate := if |field| > 1 && field[|field| - 1] == 's' then field[..|field| - 1] else field;
    if candidate == parent || candidate == "" then parent + "Item"
    else if parent == "" || parent == CONFIG_TYPE_NAME then candidate
    else parent + candidate
  }

  /** The name of a struct in a slice under this field. */
  function ElementName(parent: string, field: string): string {
    Singularize(if parent == "" || parent == CONFIG_TYPE_NAME then field else parent, field)
  }

  /** The names below n: a struct under a field bears the field's name, a struct in a slice the one
      made from the field and the struct around it. */
  ghost predicate NamedAs(g: Graph, n: TypeSpec, s: Shapes.Shape, parent: string)
    requires Represents(g, n, s)
    decreases s, 0
  {
    match s
    case Slice(Some(e)) => NamedAs(g, g[n].element, e, parent)
    case Struct(fields) => forall i :: 0 <= i < |fields| ==> ChildNamed(g, g[n].fields[i].typ, fields[i], parent)
    case _ => true
  }

  ghost predicate ChildNamed(g: Graph, t: TypeSpec, f: Shapes.Field, parent: string)
    requires Represents(g, t, f.shape)
    decreases f, 1
  {
    match f.shape
    case Struct(_) => g[t].name == f.name && NamedAs(g, t, f.shape, f.name)
    case Slice(Some(e)) =>
      if e.Struct? then
        g[t].element in g && g[g[t].element].name == ElementName(parent, f.name) &&
        NamedAs(g, g[t].element, e, ElementName(parent, f.name))
      else
        // nothing below two slices is reached
        forall m <- NodesOf(g, t, f.shape) :: m in g && g[m].name == ""
    case _ => true
  }

  /** Renamed, and outside of part not even that. */
  ghost predicate RenamedIn(g: Graph, g': Graph, part: set<TypeSpec>) {
    Renamed(g, g') && forall n <- g | n !in part :: g'[n] == g[n]
  }

  lemma {:induction false} RenamedTree(g: Graph, g': Graph, n: TypeSpec, s: Shapes.Shape)
    requires Renamed(g, g') && Tree(g, n, s)
    ensures Tree(g', n, s) && NodesOf(g', n, s) == NodesOf(g, n, s)
    decreases s
  {
    assert g'[n] == g[n].(name := g'[n].name);
    match s
    case Slice(Some(e)) => RenamedTree(g, g', g[n].element, e);
    case Struct(fields) =>
      forall i | 0 <= i < |fields|
        ensures Tree(g', g[n].fields[i].typ, fields[i].shape)
        ensures NodesOf(g', g[n].fields[i].typ, fields[i].shape) == NodesOf(g, g[n].fields[i].typ, fields[i].shape)
      {
        RenamedTree(g, g', g[n].fields[i].typ, fields[i].shape);
      }
    case _ =>
  }

  /** Names given below n stay while the nodes below n do. */
  lemma {:induction false} NamedFrame(g: Graph, g': Graph, n: TypeSpec, s: Shapes.Shape, parent: string)
    requires Tree(g, n, s) && Tree(g', n, s) && NamedAs(g, n, s, parent)
    requires forall m <- NodesOf(g, n, s) :: m in g && m in g' && g'[m] == g[m]
    ensures NamedAs(g', n, s, parent)
    decreases s, 0
  {
    match s
    case Slice(Some(e)) => NamedFrame(g, g', g[n].element, e, parent);
    case Struct(fields) =>
      forall i | 0 <= i < |fields|
        ensures ChildNamed(g', g[n].fields[i].typ, fields[i], parent)
      {
        ChildFrame(g, g', g[n].fields[i].typ, fields[i], parent);
      }
    case _ =>
  }

  lemma {:induction false} ChildFrame(g: Graph, g': Graph, t: TypeSpec, f: Shapes.Field, parent: string)
    requires Tree(g, t, f.shape) && Tree(g', t, f.shape) && ChildNamed(g, t, f, parent)
    requires forall m <- NodesOf(g, t, f.shape) :: m in g && m in g' && g'[m] == g[m]
    ensures ChildNamed(g', t, f, parent)
    decreases f, 1
  {
    match f.shape
    case Struct(_) => NamedFrame(g, g', t, f.shape, f.name);
    case Slice(Some(e)) =>
      if e.Struct? {
        NamedFrame(g, g', g[t].element, e, ElementName(parent, f.name));
      } else {
        TreeFrame(g, g', t, f.shape);
      }
    case _ =>
  }

  method SetName(spec: TypeSpec, name: string, ghost nodes: set<TypeSpec>)
    requires spec in nodes
    modifies spec`name
    ensures Snap(nodes) == old(Snap(nodes))[spec := old(Snap(nodes))[spec].(name := name)]
  {
    spec.name := name;
  }

  /** The tree below n has no names yet. */
  ghost predicate Fresh(g: Graph, n: TypeSpec, s: Shapes.Shape) {
    Tree(g, n, s) && forall m <- NodesOf(g, n, s) | m != n :: m in g && g[m].name == ""
  }

  /** Of the struct n the first i fields have been named, and the rest is as it was. */
  ghost predicate NamedUpTo(g: Graph, now: Graph, n: TypeSpec, fields: seq<Shapes.Field>, i: nat, parent: string)
    requires Tree(g, n, Shapes.Struct(fields))
  {
    && i <= |fields|
    && RenamedIn(g, now, NodesOf(g, n, Shapes.Struct(fields)) - {n})
    && Tree(now, n, Shapes.Struct(fields))
    && (forall j :: 0 <= j < i ==> ChildNamed(now, g[n].fields[j].typ, fields[j], parent))
    && (forall j :: i <= j < |fields| ==> Untouched(g, now, g[n].fields[j].typ, fields[j].shape))
  }

  ghost predicate Untouched(g: Graph, now: Graph, t: TypeSpec, s: Shapes.Shape)
    requires Represents(g, t, s)
  {
    forall m <- NodesOf(g, t, s) :: m in g && m in now && now[m] == g[m]
  }

  lemma SiblingNamed(g: Graph, now: Graph, next: Graph, n: TypeSpec, fields: seq<Shapes.Field>, i: nat, j: nat, parent: string)
    requires Tree(g, n, Shapes.Struct(fields)) && i < |fields| && j < |fields| && i != j
    requires var t := g[n].fields[j].typ;
             && Renamed(g, now) && Represents(now, t, fields[j].shape) && ChildNamed(now, t, fields[j], parent)
    requires RenamedIn(now, next, NodesOf(g, g[n].fields[i].typ, fields[i].shape))
    ensures Represents(next, g[n].fields[j].typ, fields[j].shape)
    ensures ChildNamed(next, g[n].fields[j].typ, fields[j], parent)
  {
    var t := g[n].fields[j].typ;
    RenamedTree(g, now, t, fields[j].shape);
    RenamedTree(now, next, t, fields[j].shape);
    TreeClosed(now, t, fields[j].shape);
    ChildFrame(now, next, t, fields[j], parent);
  }

  lemma SiblingUntouched(g: Graph, now: Graph, next: Graph, n: TypeSpec, fields: seq<Shapes.Field>, i: nat, j: nat)
    requires Tree(g, n, Shapes.Struct(fields)) && i < j < |fields|
    requires Untouched(g, now, g[n].fields[j].typ, fields[j].shape)
    requires RenamedIn(now, next, NodesOf(g, g[n].fields[i].typ, fields[i].shape))
    ensures Untouched(g, next, g[n].fields[j].typ, fields[j].shape)
  {
  }

  lemma RenamedInside(g: Graph, now: Graph, next: Graph, n: TypeSpec, fields: seq<Shapes.Field>, i: nat)
    requires Tree(g, n, Shapes.Struct(fields)) && i < |fields|
    requires RenamedIn(g, now, NodesOf(g, n, Shapes.Struct(fields)) - {n})
    requires RenamedIn(now, next, NodesOf(g, g[n].fields[i].typ, fields[i].shape))
    ensures RenamedIn(g, next, NodesOf(g, n, Shapes.Struct(fields)) - {n})
  {
    var part, whole := NodesOf(g, g[n].fields[i].typ, fields[i].shape), NodesOf(g, n, Shapes.Struct(fields)) - {n};
    assert part <= whole by {
      FieldInside(g, n, fields, i);
    }
    RenamedWithin(g, now, next, part, whole);
  }

  lemma FieldInside(g: Graph, n: TypeSpec, fields: seq<Shapes.Field>, i: nat)
    requires Tree(g, n, Shapes.Struct(fields)) && i < |fields|
    ensures NodesOf(g, g[n].fields[i].typ, fields[i].shape) <= NodesOf(g, n, Shapes.Struct(fields)) - {n}
  {
  }

  lemma RenamedWithin(g: Graph, now: Graph, next: Graph, part: set<TypeSpec>, whole: set<TypeSpec>)
    requires RenamedIn(g, now, whole) && RenamedIn(now, next, part) && part <= whole
    ensures RenamedIn(g, next, whole)
  {
  }

  lemma NamedBefore(g: Graph, now: Graph, next: Graph, n: TypeSpec, fields: seq<Shapes.Field>, i: nat, parent: string)
    requires Tree(g, n, Shapes.Struct(fields)) && NamedUpTo(g, now, n, fields, i, parent) && i < |fields|
    requires RenamedIn(now, next, NodesOf(g, g[n].fields[i].typ, fields[i].shape))
    ensures forall j :: 0 <= j < i ==>
              Represents(next, g[n].fields[j].typ, fields[j].shape) && ChildNamed(next, g[n].fields[j].typ, fields[j], parent)
  {
    forall j | 0 <= j < i
      ensures Represents(next, g[n].fields[j].typ, fields[j].shape) && ChildNamed(next, g[n].fields[j].typ, fields[j], parent)
    {
      SiblingNamed(g, now, next, n, fields, i, j, parent);
    }
  }

  lemma UntouchedAfter(g: Graph, now: Graph, next: Graph, n: TypeSpec, fields: seq<Shapes.Field>, i: nat)
    requires Tree(g, n, Shapes.Struct(fields)) && i < |fields|
    requires forall j :: i <= j < |fields| ==> Untouched(g, now, g[n].fields[j].typ, fields[j].shape)
    requires RenamedIn(now, next, NodesOf(g, g[n].fields[i].typ, fields[i].shape))
    ensures forall j :: i + 1 <= j < |fields| ==> Untouched(g, next, g[n].fields[j].typ, fields[j].shape)
  {
    forall j | i < j < |fields|
      ensures Untouched(g, next, g[n].fields[j].typ, fields[j].shape)
    {
      SiblingUntouched(g, now, next, n, fields, i, j);
    }
  }

  lemma OneMoreNamed(g: Graph, next: Graph, n: TypeSpec, fields: seq<Shapes.Field>, i: nat, parent: string)
    requires Tree(g, n, Shapes.Struct(fields)) && Tree(next, n, Shapes.Struct(fields)) && i < |fields|
    requires next[n].fields == g[n].fields
    requires forall j :: 0 <= j < i ==> ChildNamed(next, g[n].fields[j].typ, fields[j], parent)
    requires ChildNamed(next, g[n].fields[i].typ, fields[i], parent)
    ensures forall j :: 0 <= j < i + 1 ==> ChildNamed(next, g[n].fields[j].typ, fields[j], parent)
  {
  }

  lemma NextNamed(g: Graph, now: Graph, next: Graph, n: TypeSpec, fields: seq<Shapes.Field>, i: nat, parent: string)
    requires Tree(g, n, Shapes.Struct(fields)) && NamedUpTo(g, now, n, fields, i, parent) && i < |fields|
    requires var t := g[n].fields[i].typ;
             && RenamedIn(now, next, NodesOf(g, t, fields[i].shape))
             && Represents(next, t, fields[i].shape) && ChildNamed(next, t, fields[i], parent)
    ensures NamedUpTo(g, next, n, fields, i + 1, parent)
  {
    RenamedInside(g, now, next, n, fields, i);
    RenamedTree(now, next, n, Shapes.Struct(fields));
    NamedBefore(g, now, next, n, fields, i, parent);
    OneMoreNamed(g, next, n, fields, i, parent);
    UntouchedAfter(g, now, next, n, fields, i);
  }

  /** assignNames on the tree finalize begins with. */
  method AssignNames(spec: TypeSpec, parentName: string, ghost s: Shapes.Shape, ghost nodes: set<TypeSpec>)
    requires Fresh(Snap(nodes), spec, s)
    modifies nodes
    ensures RenamedIn(old(Snap(nodes)), Snap(nodes), NodesOf(old(Snap(nodes)), spec, s) - {spec})
    ensures Represents(Snap(nodes), spec, s) && NamedAs(Snap(nodes), spec, s, parentName)
    decreases s, 0
  {
    if spec.kind == KindStruct {
      AssignFields(spec, parentName, s.fields, nodes);
    } else if spec.kind == KindSlice {
      if spec.element != null {
        AssignNames(spec.element, parentName, s.element.value, nodes);
      }
    }
  }

  /** The loop over the fields of a struct. */
  method AssignFields(spec: TypeSpec, parentName: string, ghost fields: seq<Shapes.Field>, ghost nodes: set<TypeSpec>)
    requires Fresh(Snap(nodes), spec, Shapes.Struct(fields))
    modifies nodes
    ensures NamedUpTo(old(Snap(nodes)), Snap(nodes), spec, fields, |fields|, parentName)
    decreases fields, 2
  {
    ghost var g := Snap(nodes);
    for i := 0 to |spec.fields|
      invariant spec.fields == g[spec].fields && NamedUpTo(g, Snap(nodes), spec, fields, i, parentName)
    {
      var field := spec.fields[i];
      ghost var now := Snap(nodes);
      FieldFresh(g, now, spec, fields, i, parentName);
      NameChild(field, parentName, fields[i], nodes);
      NextNamed(g, now, Snap(nodes), spec, fields, i, parentName);
      assert Snap(nodes)[spec].fields == g[spec].fields;
    }
  }

  lemma FieldFresh(g: Graph, now: Graph, n: TypeSpec, fields: seq<Shapes.Field>, i: nat, parent: string)
    requires Fresh(g, n, Shapes.Struct(fields)) && NamedUpTo(g, now, n, fields, i, parent) && i < |fields|
    ensures var t := g[n].fields[i].typ;
            && Fresh(now, t, fields[i].shape) && now[t].name == ""
            && NodesOf(now, t, fields[i].shape) == NodesOf(g, t, fields[i].shape)
  {
    var t := g[n].fields[i].typ;
    RenamedTree(g, now, t, fields[i].shape);
    assert t in NodesOf(g, t, fields[i].shape);
  }

  /** The body of that loop. */
  method NameChild(field: FieldSpec, parentName: string, ghost f: Shapes.Field, ghost nodes: set<TypeSpec>)
    requires field.name == f.name && Fresh(Snap(nodes), field.typ, f.shape) && field.typ.name == ""
    modifies nodes
    ensures RenamedIn(old(Snap(nodes)), Snap(nodes), NodesOf(old(Snap(nodes)), field.typ, f.shape))
    ensures Represents(Snap(nodes), field.typ, f.shape) && ChildNamed(Snap(nodes), field.typ, f, parentName)
    decreases f, 1
  {
    ghost var g := Snap(nodes);
    var child := field.typ;
    if child.kind == KindStruct {
      if child.name == "" {
        NameTree(child, field.name, f.shape, nodes);
      }
    } else if child.kind == KindSlice {
      var element := child.element;
      if f.shape.element.Some? {
        ElementFresh(g, child, f.shape.element.value);
      }
      if element != null && element.kind == KindStruct && element.name == "" {
        var base := parentName;
        if base == "" || base == CONFIG_TYPE_NAME {
          base := field.name;
        }
        NameTree(element, Singularize(base, field.name), f.shape.element.value, nodes);
        RenamedTree(g, Snap(nodes), child, f.shape);
      }
    }
  }

  lemma ElementFresh(g: Graph, t: TypeSpec, e: Shapes.Shape)
    requires Fresh(g, t, Shapes.Slice(Some(e)))
    ensures g[t].element != null && Fresh(g, g[t].element, e) && g[g[t].element].name == ""
    ensures e.Struct? <==> g[g[t].element].kind == KindStruct
  {
    assert g[t].element in NodesOf(g, g[t].element, e);
  }

  lemma NameSet(g: Graph, n: TypeSpec, s: Shapes.Shape, name: string)
    requires Fresh(g, n, s)
    ensures var g' := g[n := g[n].(name := name)];
            && Fresh(g', n, s) && NodesOf(g', n, s) == NodesOf(g, n, s)
            && RenamedIn(g, g', NodesOf(g, n, s))
  {
    assert n in NodesOf(g, n, s);
    RenamedTree(g, g[n := g[n].(name := name)], n, s);
  }

  /** A node gets its name and the nodes below it theirs. */
  method NameTree(spec: TypeSpec, name: string, ghost s: Shapes.Shape, ghost nodes: set<TypeSpec>)
    requires Fresh(Snap(nodes), spec, s)
    modifies nodes
    ensures RenamedIn(old(Snap(nodes)), Snap(nodes), NodesOf(old(Snap(nodes)), spec, s))
    ensures spec.name == name && Represents(Snap(nodes), spec, s) && NamedAs(Snap(nodes), spec, s, name)
    decreases s, 1
  {
    ghost var g := Snap(nodes);
    NameSet(g, spec, s, name);
    SetName(spec, name, nodes);
    ghost var g' := Snap(nodes);
    AssignNames(spec, spec.name, s, nodes);
    RenamedTransitive(g, g', Snap(nodes));
    assert Snap(nodes)[spec] == g'[spec];
  }

  // ---------- shapeKey and typeTag ----------

  /** typeTag; bound is how many slices may follow one another. */
  ghost function TypeTag(g: Graph, t: TypeSpec, bound: nat): string
    requires Ends(g, t, bound)
    decreases bound
  {
    match g[t].kind
    case KindScalar => "s:" + g[t].scalar
    case KindSlice => if g[t].element == null then "[]nil" else "[]" + TypeTag(g, g[t].element, bound - 1)
    case KindStruct => "@" + g[t].name
    case KindNull => "?"
  }

  ghost function FieldsKey(g: Graph, fields: seq<FieldSpec>, bound: nat): string
    requires forall f <- fields :: Ends(g, f.typ, bound)
  {
    if fields == [] then "" else
      var k := |fields| - 1;
      FieldsKey(g, fields[..k], bound) + fields[k].name + ":" + TypeTag(g, fields[k].typ, bound) + ";"
  }

  /** A graph typeTag returns on. */
  ghost predicate Taggable(g: Graph, bound: nat) {
    Closed(g) && ChainsEnd(g, bound)
  }

  ghost function ShapeKey(g: Graph, n: TypeSpec, bound: nat): string
    requires Taggable(g, bound) && n in g
  {
    if g[n].kind != KindStruct then "" else
      FieldTypesInside(g, n);
      FieldsKey(g, g[n].fields, bound)
  }

  method ComputeTypeTag(t: TypeSpec, ghost g: Graph, ghost bound: nat) returns (r: string)
    requires g == Snap(g.Keys) && Ends(g, t, bound)
    ensures r == TypeTag(g, t, bound)
    decreases bound
  {
    match t.kind
    case KindScalar => return "s:" + t.scalar;
    case KindSlice =>
      if t.element == null {
        return "[]nil";
      }
      var rest := ComputeTypeTag(t.element, g, bound - 1);
      return "[]" + rest;
    case KindStruct => return "@" + t.name;
    case KindNull => return "?";
  }

  method ComputeShapeKey(spec: TypeSpec, ghost g: Graph, ghost bound: nat) returns (b: string)
    requires g == Snap(g.Keys) && Taggable(g, bound) && spec in g
    ensures b == ShapeKey(g, spec, bound)
  {
    b := "";
    if spec.kind != KindStruct {
      return;
    }
    FieldTypesInside(g, spec);
    for i := 0 to |spec.fields|
      invariant b == FieldsKey(g, spec.fields[..i], bound)
    {
      assert spec.fields[..i + 1][..i] == spec.fields[..i];
      var tag := ComputeTypeTag(spec.fields[i].typ, g, bound);
      b := b + spec.fields[i].name + ":" + tag + ";";
    }
    assert spec.fields[..|spec.fields|] == spec.fields;
  }

  // ---------- deduplicateStructs ----------

  /** The graph and the map canonical, which is kept from pass to pass; changed is for one pass. */
  datatype PassState = PassState(graph: Graph, canonical: map<string, TypeSpec>, changed: bool)

  ghost predicate ValidState(st: PassState, bound: nat) {
    Taggable(st.graph, bound) && st.canonical.Values <= st.graph.Keys
  }

  /** Later states: only names change, canonical entries stay, and changed tells the truth. */
  ghost predicate Later(st: PassState, st': PassState) {
    && Renamed(st.graph, st'.graph)
    && (forall k <- st.canonical :: k in st'.canonical && st'.canonical[k] == st.canonical[k])
    && (st.changed ==> st'.changed)
    && (!st'.changed ==> st'.graph == st.graph)
  }

  lemma RenamedTaggable(g: Graph, g': Graph, bound: nat)
    requires Taggable(g, bound) && Renamed(g, g')
    ensures Taggable(g', bound)
  {
    RenamedClosed(g, g');
    forall n <- g
      ensures g'[n].kind == g[n].kind && g'[n].element == g[n].element
    {
      assert g'[n] == g[n].(name := g'[n].name);
    }
    forall t <- g'
      ensures Ends(g', t, bound)
    {
      SameElementsEnd(g, g', t, bound);
    }
  }

  /** The callback of the pass on one node. */
  ghost function Deduplicate(st: PassState, spec: TypeSpec, bound: nat): (r: PassState)
    requires ValidState(st, bound) && spec in st.graph
    ensures ValidState(r, bound) && Later(st, r)
  {
    if st.graph[spec].kind != KindStruct then st else
      var key := ShapeKey(st.graph, spec, bound);
      if key !in st.canonical then st.(canonical := st.canonical[key := spec]) else
        assert st.canonical[key] in st.canonical.Values;
        var name := st.graph[st.canonical[key]].name;
        if st.graph[spec].name == name then st else
          var g := st.graph[spec := st.graph[spec].(name := name)];
          RenamedTaggable(st.graph, g, bound);
          st.(graph := g, changed := true)
  }

  ghost function DeduplicateAll(st: PassState, calls: seq<TypeSpec>, bound: nat): (r: PassState)
    requires ValidState(st, bound) && forall n <- calls :: n in st.graph
    ensures ValidState(r, bound) && Later(st, r)
  {
    if calls == [] then st else
      var k := |calls| - 1;
      Deduplicate(DeduplicateAll(st, calls[..k], bound), calls[k], bound)
  }

  /** One pass; calls are the nodes visited, the same ones in each pass. */
  ghost function PassOver(st: PassState, calls: seq<TypeSpec>, bound: nat): (r: PassState)
    requires ValidState(st, bound) && forall n <- calls :: n in st.graph
    ensures ValidState(r, bound) && Renamed(st.graph, r.graph) && (!r.changed ==> r.graph == st.graph)
  {
    DeduplicateAll(st.(changed := false), calls, bound)
  }

  /** Names have no influence on a walk. */
  lemma RenamedWalk(g: Graph, g': Graph, root: TypeSpec)
    requires Closed(g) && Renamed(g, g') && root in g
    ensures Walk(g', root, {}) == Walk(g, root, {})
  {
    forall n <- g
      ensures Children(g'[n]) == Children(g[n])
    {
      assert g'[n] == g[n].(name := g'[n].name);
    }
    SameWalk(g, g', root, {});
  }

  ghost predicate IsNow(st: PassState, nodes: set<TypeSpec>, canonical: map<string, TypeSpec>, changed: bool)
    reads nodes
  {
    st.graph == Snap(nodes) && st.canonical == canonical && st.changed == changed
  }

  method DeduplicateSpec(spec: TypeSpec, canonical: map<string, TypeSpec>, changed: bool,
                         ghost st: PassState, ghost nodes: set<TypeSpec>, ghost bound: nat)
    returns (canonical': map<string, TypeSpec>, changed': bool)
    requires ValidState(st, bound) && IsNow(st, nodes, canonical, changed) && spec in nodes
    modifies nodes
    ensures IsNow(Deduplicate(st, spec, bound), nodes, canonical', changed')
  {
    canonical', changed' := canonical, changed;
    if spec.kind != KindStruct {
      return;
    }
    var key := ComputeShapeKey(spec, st.graph, bound);
    if key !in canonical {
      canonical' := canonical[key := spec];
      return;
    }
    var existing := canonical[key];
    if existing == spec {
      return;
    }
    assert existing in canonical.Values;
    if spec.name != existing.name {
      SetName(spec, existing.name, nodes);
      changed' := true;
    }
  }

  lemma NextDeduplicated(st: PassState, calls: seq<TypeSpec>, i: nat, bound: nat)
    requires ValidState(st, bound) && i < |calls| && forall n <- calls :: n in st.graph
    ensures DeduplicateAll(st, calls[..i + 1], bound) == Deduplicate(DeduplicateAll(st, calls[..i], bound), calls[i], bound)
  {
    assert calls[..i + 1][..i] == calls[..i];
  }

  method DeduplicatePass(root: TypeSpec, canonical: map<string, TypeSpec>,
                         ghost st: PassState, ghost nodes: set<TypeSpec>, ghost bound: nat)
    returns (canonical': map<string, TypeSpec>, changed: bool)
    requires ValidState(st, bound) && IsNow(st.(changed := false), nodes, canonical, false) && root in nodes
    modifies nodes
    ensures forall n <- Walk(st.graph, root, {}) :: n in st.graph
    ensures IsNow(PassOver(st, Walk(st.graph, root, {}), bound), nodes, canonical', changed)
  {
    var calls, _ := VisitWith(root, {}, st.graph);
    WalkFresh(st.graph, root, {});
    canonical', changed := canonical, false;
    ghost var now := st.(changed := false);
    for i := 0 to |calls|
      invariant now == DeduplicateAll(st.(changed := false), calls[..i], bound)
      invariant IsNow(now, nodes, canonical', changed)
    {
      NextDeduplicated(st.(changed := false), calls, i, bound);
      canonical', changed := DeduplicateSpec(calls[i], canonical', changed, now, nodes, bound);
      now := Deduplicate(now, calls[i], bound);
    }
    assert calls[..|calls|] == calls;
  }

  /** The states of a run of passes: each is a pass over the one before, and all passes but the last
      have changed something. */
  ghost predicate Passes(states: seq<PassState>, calls: seq<TypeSpec>, bound: nat) {
    && states != []
    && (forall i {:trigger StateOf(states, i, calls, bound)} :: 0 <= i < |states| ==> StateOf(states, i, calls, bound))
  }

  ghost predicate StateOf(states: seq<PassState>, i: nat, calls: seq<TypeSpec>, bound: nat)
    requires i < |states|
  {
    && ValidState(states[i], bound) && (forall n <- calls :: n in states[i].graph)
    && (i + 1 < |states| ==> states[i + 1] == PassOver(states[i], calls, bound))
    && (0 < i < |states| - 1 ==> states[i].changed)
  }

  /** The run has ended: its last pass has changed nothing. */
  ghost predicate Ended(states: seq<PassState>) {
    |states| > 1 && !states[|states| - 1].changed
  }

  lemma NextPass(states: seq<PassState>, calls: seq<TypeSpec>, bound: nat)
    requires Passes(states, calls, bound) && !Ended(states)
    ensures var last := states[|states| - 1];
            && ValidState(last, bound) && (forall n <- calls :: n in last.graph)
            && Passes(states + [PassOver(last, calls, bound)], calls, bound)
  {
    var k := |states| - 1;
    assert StateOf(states, k, calls, bound);
    var states' := states + [PassOver(states[k], calls, bound)];
    forall i | 0 <= i < |states'|
      ensures StateOf(states', i, calls, bound)
    {
      if i <= k {
        assert StateOf(states, i, calls, bound);
      }
    }
  }

  lemma {:induction false} PassesRename(states: seq<PassState>, calls: seq<TypeSpec>, bound: nat, i: nat)
    requires Passes(states, calls, bound) && i < |states|
    ensures Renamed(states[0].graph, states[i].graph)
  {
    if i > 0 {
      PassesRename(states, calls, bound, i - 1);
      assert StateOf(states, i - 1, calls, bound);
      RenamedTransitive(states[0].graph, states[i - 1].graph, states[i].graph);
    }
  }

  ghost function Last(states: seq<PassState>): PassState
    requires states != []
  {
    states[|states| - 1]
  }

  lemma SameVisits(states: seq<PassState>, root: TypeSpec, bound: nat)
    requires states != [] && root in states[0].graph && Passes(states, Walk(states[0].graph, root, {}), bound)
    ensures Walk(Last(states).graph, root, {}) == Walk(states[0].graph, root, {})
    ensures ValidState(Last(states), bound)
  {
    var calls := Walk(states[0].graph, root, {});
    PassesRename(states, calls, bound, |states| - 1);
    assert StateOf(states, |states| - 1, calls, bound);
    assert StateOf(states, 0, calls, bound);
    RenamedWalk(states[0].graph, Last(states).graph, root);
  }

  /** One round of the loop of deduplicateStructs. */
  method RunPass(root: TypeSpec, canonical: map<string, TypeSpec>,
                 ghost states: seq<PassState>, ghost nodes: set<TypeSpec>, ghost bound: nat)
    returns (canonical': map<string, TypeSpec>, changed: bool, ghost states': seq<PassState>)
    requires states != [] && Passes(states, Walk(states[0].graph, root, {}), bound) && !Ended(states)
    requires IsNow(Last(states), nodes, canonical, Last(states).changed) && root in nodes && root in states[0].graph
    modifies nodes
    ensures states <= states' && |states'| == |states| + 1
    ensures Passes(states', Walk(states[0].graph, root, {}), bound)
    ensures changed == !Ended(states') && IsNow(Last(states'), nodes, canonical', Last(states').changed)
  {
    ghost var calls := Walk(states[0].graph, root, {});
    NextPass(states, calls, bound);
    SameVisits(states, root, bound);
    canonical', changed := DeduplicatePass(root, canonical, Last(states), nodes, bound);
    states' := states + [PassOver(Last(states), calls, bound)];
  }

  /** deduplicateStructs for as many passes as are granted: they need not come to an end. */
  method DeduplicateStructs(root: TypeSpec, passes: nat, ghost nodes: set<TypeSpec>, ghost bound: nat)
    returns (ended: bool, ghost states: seq<PassState>)
    requires Taggable(Snap(nodes), bound) && root in nodes
    modifies nodes
    ensures states != [] && states[0] == PassState(old(Snap(nodes)), map[], false)
    ensures Passes(states, Walk(states[0].graph, root, {}), bound)
    ensures Last(states).graph == Snap(nodes)
    ensures ended == Ended(states) && (!ended ==> |states| == passes + 1)
  {
    var canonical: map<string, TypeSpec> := map[];
    states := [PassState(Snap(nodes), canonical, false)];
    WalkFresh(states[0].graph, root, {});
    assert StateOf(states, 0, Walk(states[0].graph, root, {}), bound);
    ended := false;
    var left := passes;
    while left > 0 && !ended
      invariant states != [] && states[0] == PassState(old(Snap(nodes)), map[], false)
      invariant Passes(states, Walk(states[0].graph, root, {}), bound)
      invariant IsNow(Last(states), nodes, canonical, Last(states).changed)
      invariant ended == Ended(states) && |states| == passes - left + 1
    {
      var changed;
      canonical, changed, states := RunPass(root, canonical, states, nodes, bound);
      ended, left := !changed, left - 1;
    }
  }

  // ---------- what the passes achieve ----------

  lemma LaterTransitive(st: PassState, st': PassState, st'': PassState)
    requires Later(st, st') && Later(st', st'')
    ensures Later(st, st'')
  {
    RenamedTransitive(st.graph, st'.graph, st''.graph);
  }

  lemma {:induction false} LaterKeeps(st: PassState, calls: seq<TypeSpec>, i: nat, bound: nat)
    requires ValidState(st, bound) && i <= |calls| && forall n <- calls :: n in st.graph
    ensures Later(DeduplicateAll(st, calls[..i], bound), DeduplicateAll(st, calls, bound))
    decreases |calls| - i
  {
    if i < |calls| {
      NextDeduplicated(st, calls, i, bound);
      LaterKeeps(st, calls, i + 1, bound);
      LaterTransitive(DeduplicateAll(st, calls[..i], bound), DeduplicateAll(st, calls[..i + 1], bound),
                      DeduplicateAll(st, calls, bound));
    } else {
      assert calls[..i] == calls;
    }
  }

  /** The canonical struct of n's key bears n's name. */
  ghost predicate Canonical(st: PassState, n: TypeSpec, bound: nat)
    requires ValidState(st, bound) && n in st.graph
  {
    st.graph[n].kind == KindStruct ==>
      var key := ShapeKey(st.graph, n, bound);
      && key in st.canonical
      && st.canonical[key] in st.canonical.Values
      && st.graph[st.canonical[key]].name == st.graph[n].name
  }

  lemma VisitIsCanonical(st: PassState, n: TypeSpec, bound: nat)
    requires ValidState(st, bound) && n in st.graph && !Deduplicate(st, n, bound).changed
    ensures Canonical(Deduplicate(st, n, bound), n, bound)
  {
    if st.graph[n].kind == KindStruct {
      var key := ShapeKey(st.graph, n, bound);
      assert Deduplicate(st, n, bound).canonical[key] in Deduplicate(st, n, bound).canonical.Values;
    }
  }

  lemma CanonicalStays(st: PassState, st': PassState, n: TypeSpec, bound: nat)
    requires ValidState(st, bound) && ValidState(st', bound) && n in st.graph && Canonical(st, n, bound)
    requires Later(st, st') && !st'.changed
    ensures Canonical(st', n, bound)
  {
    if st.graph[n].kind == KindStruct {
      assert st'.canonical[ShapeKey(st.graph, n, bound)] in st'.canonical.Values;
    }
  }

  lemma UnchangedVisit(st: PassState, calls: seq<TypeSpec>, i: nat, bound: nat)
    requires ValidState(st, bound) && i < |calls| && forall n <- calls :: n in st.graph
    requires !DeduplicateAll(st, calls, bound).changed
    ensures Canonical(DeduplicateAll(st, calls, bound), calls[i], bound)
  {
    NextDeduplicated(st, calls, i, bound);
    LaterKeeps(st, calls, i + 1, bound);
    VisitIsCanonical(DeduplicateAll(st, calls[..i], bound), calls[i], bound);
    CanonicalStays(DeduplicateAll(st, calls[..i + 1], bound), DeduplicateAll(st, calls, bound), calls[i], bound);
  }

  /** A pass that changes nothing leaves a graph in which visited structs with equal keys share a name. */
  lemma UnchangedPassExact(st: PassState, calls: seq<TypeSpec>, bound: nat, a: TypeSpec, b: TypeSpec)
    requires ValidState(st, bound) && (forall n <- calls :: n in st.graph) && !PassOver(st, calls, bound).changed
    requires a in calls && b in calls && st.graph[a].kind == KindStruct && st.graph[b].kind == KindStruct
    requires ShapeKey(st.graph, a, bound) == ShapeKey(st.graph, b, bound)
    ensures st.graph[a].name == st.graph[b].name
  {
    var i :| 0 <= i < |calls| && calls[i] == a;
    var j :| 0 <= j < |calls| && calls[j] == b;
    UnchangedVisit(st.(changed := false), calls, i, bound);
    UnchangedVisit(st.(changed := false), calls, j, bound);
  }

  /** So after a run that has ended: only names have changed, and equal keys mean equal names. */
  lemma DeduplicatedExact(states: seq<PassState>, calls: seq<TypeSpec>, bound: nat)
    requires Passes(states, calls, bound) && Ended(states)
    ensures var g := Last(states).graph;
            && Renamed(states[0].graph, g) && Taggable(g, bound)
            && (forall n <- calls :: n in g)
            && forall a, b | a in calls && b in calls && g[a].kind == KindStruct && g[b].kind == KindStruct ::
                 ShapeKey(g, a, bound) == ShapeKey(g, b, bound) ==> g[a].name == g[b].name
  {
    var k := |states| - 2;
    PassesRename(states, calls, bound, k + 1);
    assert StateOf(states, k, calls, bound) && StateOf(states, k + 1, calls, bound);
    var g := Last(states).graph;
    forall a, b | a in calls && b in calls && g[a].kind == KindStruct && g[b].kind == KindStruct &&
                  ShapeKey(g, a, bound) == ShapeKey(g, b, bound)
      ensures g[a].name == g[b].name
    {
      UnchangedPassExact(states[k], calls, bound, a, b);
    }
  }

  // ---------- the name of the root ----------

  /** What the first struct visited in a pass is called after it. */
  ghost function NameAfter(st: PassState, n: TypeSpec, bound: nat): string
    requires ValidState(st, bound) && n in st.graph
  {
    var key := ShapeKey(st.graph, n, bound);
    if st.graph[n].kind == KindStruct && key in st.canonical then
      assert st.canonical[key] in st.canonical.Values;
      st.graph[st.canonical[key]].name
    else st.graph[n].name
  }

  ghost predicate IsCalled(st: PassState, n: TypeSpec, name: string) {
    n in st.graph && st.graph[n].name == name
  }

  /** A pass leaves the root its name iff no earlier pass has stored its key, or has stored it for
      a struct of that name. */
  ghost predicate KeepsName(st: PassState, n: TypeSpec, bound: nat) {
    && ValidState(st, bound) && n in st.graph
    && (st.graph[n].kind == KindStruct ==>
          var key := ShapeKey(st.graph, n, bound);
          key in st.canonical ==> IsCalled(st, st.canonical[key], st.graph[n].name))
  }

  lemma VisitNames(st: PassState, spec: TypeSpec, n: TypeSpec, bound: nat)
    requires ValidState(st, bound) && spec in st.graph && n in st.graph
    ensures Deduplicate(st, spec, bound).graph[n].name == if n == spec then NameAfter(st, n, bound) else st.graph[n].name
  {
  }

  lemma {:induction false} RootVisited(st: PassState, calls: seq<TypeSpec>, k: nat, bound: nat)
    requires ValidState(st, bound) && (forall n <- calls :: n in st.graph) && k < |calls| && Distinct(calls)
    ensures DeduplicateAll(st, calls[..k + 1], bound).graph[calls[0]].name == NameAfter(st, calls[0], bound)
  {
    NextDeduplicated(st, calls, k, bound);
    VisitNames(DeduplicateAll(st, calls[..k], bound), calls[k], calls[0], bound);
    if k > 0 {
      RootVisited(st, calls, k - 1, bound);
    }
  }

  /** What one pass makes of the root's name, exactly. */
  lemma RootNameAfterPass(st: PassState, calls: seq<TypeSpec>, bound: nat)
    requires ValidState(st, bound) && (forall n <- calls :: n in st.graph) && calls != [] && Distinct(calls)
    ensures var r := PassOver(st, calls, bound);
            && r.graph[calls[0]].name == NameAfter(st, calls[0], bound)
            && (r.graph[calls[0]].name == st.graph[calls[0]].name <==> KeepsName(st, calls[0], bound))
  {
    RootVisited(st.(changed := false), calls, |calls| - 1, bound);
    assert calls[..|calls|] == calls;
  }

  /** The root bears its name in all states of a run iff each pass leaves it its name. */
  lemma RootNamedThroughout(states: seq<PassState>, calls: seq<TypeSpec>, bound: nat, name: string)
    requires Passes(states, calls, bound) && calls != [] && Distinct(calls) && IsCalled(states[0], calls[0], name)
    ensures (forall i :: 0 <= i < |states| ==> IsCalled(states[i], calls[0], name)) <==>
            (forall i :: 0 <= i < |states| - 1 ==> KeepsName(states[i], calls[0], bound))
  {
    var root := calls[0];
    if forall i :: 0 <= i < |states| ==> IsCalled(states[i], root, name) {
      forall i | 0 <= i < |states| - 1
        ensures KeepsName(states[i], root, bound)
      {
        assert IsCalled(states[i], root, name) && IsCalled(states[i + 1], root, name);
        NextName(states, calls, bound, i, name);
      }
    }
    if forall i :: 0 <= i < |states| - 1 ==> KeepsName(states[i], root, bound) {
      NameStays(states, calls, bound, name, |states| - 1);
    }
  }

  lemma NextName(states: seq<PassState>, calls: seq<TypeSpec>, bound: nat, i: nat, name: string)
    requires Passes(states, calls, bound) && calls != [] && Distinct(calls)
    requires i < |states| - 1 && IsCalled(states[i], calls[0], name)
    ensures IsCalled(states[i + 1], calls[0], name) <==> KeepsName(states[i], calls[0], bound)
  {
    assert StateOf(states, i, calls, bound) && StateOf(states, i + 1, calls, bound);
    RootNameAfterPass(states[i], calls, bound);
  }

  lemma {:induction false} NameStays(states: seq<PassState>, calls: seq<TypeSpec>, bound: nat, name: string, k: nat)
    requires Passes(states, calls, bound) && calls != [] && Distinct(calls) && IsCalled(states[0], calls[0], name)
    requires k < |states| && forall i :: 0 <= i < |states| - 1 ==> KeepsName(states[i], calls[0], bound)
    ensures forall i :: 0 <= i <= k ==> IsCalled(states[i], calls[0], name)
  {
    if k > 0 {
      NameStays(states, calls, bound, name, k - 1);
      assert IsCalled(states[k - 1], calls[0], name);
      NextName(states, calls, bound, k - 1, name);
    }
  }

  /** No struct but the root bears the name. */
  ghost predicate NobodyElse(g: Graph, root: TypeSpec, name: string) {
    forall n <- g | n != root :: g[n].name != name
  }

  /** Then a root that has lost its name does not get it back, and a pass leaves it the name iff it
      had it and the pass does not take it. */
  lemma NameNotRegained(st: PassState, calls: seq<TypeSpec>, bound: nat, name: string)
    requires ValidState(st, bound) && (forall n <- calls :: n in st.graph) && calls != [] && Distinct(calls)
    requires NobodyElse(st.graph, calls[0], name)
    ensures IsCalled(PassOver(st, calls, bound), calls[0], name) <==>
            IsCalled(st, calls[0], name) && KeepsName(st, calls[0], bound)
  {
    RootNameAfterPass(st, calls, bound);
    var key := ShapeKey(st.graph, calls[0], bound);
    if key in st.canonical {
      assert st.canonical[key] in st.canonical.Values;
    }
  }

  /** So where nobody else ever bears the root's name, it has it after some passes iff none took it. */
  lemma {:induction false} NameKeptByPasses(states: seq<PassState>, calls: seq<TypeSpec>, bound: nat, name: string, k: nat)
    requires Passes(states, calls, bound) && calls != [] && Distinct(calls) && k < |states|
    requires IsCalled(states[0], calls[0], name)
    requires forall i :: 0 <= i < |states| ==> NobodyElse(states[i].graph, calls[0], name)
    ensures IsCalled(states[k], calls[0], name) <==> forall i :: 0 <= i < k ==> KeepsName(states[i], calls[0], bound)
  {
    if k > 0 {
      NameKeptByPasses(states, calls, bound, name, k - 1);
      assert StateOf(states, k - 1, calls, bound);
      NameNotRegained(states[k - 1], calls, bound, name);
    }
  }
}
