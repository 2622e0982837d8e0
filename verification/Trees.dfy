/** The nodes a merged type is made of: a tree of fresh nodes without names, which the passes
    of finalize then rename, share and close to cycles. */
module Trees {
  import opened Wrappers
  import opened TypeGraph
  import Shapes
  import Merge

  /** The nodes of the part below n, which represents s. */
  ghost function NodesOf(g: Graph, n: TypeSpec, s: Shapes.Shape): set<TypeSpec>
    requires Represents(g, n, s)
    decreases s
  {
    {n} + match s
          case Slice(Some(e)) => NodesOf(g, g[n].element, e)
          case Struct(fields) =>
            set i, m | 0 <= i < |fields| && m in NodesOf(g, g[n].fields[i].typ, fields[i].shape) :: m
          case _ => {}
  }

  /** No node occurs at two places below n. */
  ghost predicate Tree(g: Graph, n: TypeSpec, s: Shapes.Shape)
    decreases s
  {
    Represents(g, n, s) && match s
      case Slice(Some(e)) => Tree(g, g[n].element, e) && n !in NodesOf(g, g[n].element, e)
      case Struct(fields) =>
        && (forall i :: 0 <= i < |fields| ==>
              Tree(g, g[n].fields[i].typ, fields[i].shape) && n !in NodesOf(g, g[n].fields[i].typ, fields[i].shape))
        && forall i, j :: 0 <= i < j < |fields| ==>
             NodesOf(g, g[n].fields[i].typ, fields[i].shape) !! NodesOf(g, g[n].fields[j].typ, fields[j].shape)
      case _ => true
  }

  /** A part of the graph that stays as it was is the same tree. */
  lemma {:induction false} TreeFrame(g: Graph, g': Graph, n: TypeSpec, s: Shapes.Shape)
    requires Tree(g, n, s) && forall m <- NodesOf(g, n, s) :: m in g && m in g' && g'[m] == g[m]
    ensures Tree(g', n, s) && NodesOf(g', n, s) == NodesOf(g, n, s)
    decreases s
  {
    assert n in NodesOf(g, n, s);
    match s
    case Slice(Some(e)) => TreeFrame(g, g', g[n].element, e);
    case Struct(fields) =>
      forall i | 0 <= i < |fields|
        ensures Tree(g', g[n].fields[i].typ, fields[i].shape)
        ensures NodesOf(g', g[n].fields[i].typ, fields[i].shape) == NodesOf(g, g[n].fields[i].typ, fields[i].shape)
      {
        TreeFrame(g, g', g[n].fields[i].typ, fields[i].shape);
      }
    case _ =>
  }

  /** Below a root nothing points outside, and nothing points back at the root. */
  lemma {:induction false} TreeClosed(g: Graph, n: TypeSpec, s: Shapes.Shape)
    requires Tree(g, n, s)
    ensures forall m <- NodesOf(g, n, s) :: m in g && forall c <- Children(g[m]) :: c in NodesOf(g, n, s) && c != n
    decreases s
  {
    forall m <- NodesOf(g, n, s)
      ensures m in g && forall c <- Children(g[m]) :: c in NodesOf(g, n, s) && c != n
    {
      match s
      case Slice(Some(e)) => TreeClosed(g, g[n].element, e);
      case Struct(fields) =>
        if m == n {
          forall c <- Children(g[n])
            ensures c in NodesOf(g, n, s) && c != n
          {
            var i :| 0 <= i < |fields| && g[n].fields[i].typ == c;
            assert c in NodesOf(g, g[n].fields[i].typ, fields[i].shape);
          }
        } else {
          var i :| 0 <= i < |fields| && m in NodesOf(g, g[n].fields[i].typ, fields[i].shape);
          TreeClosed(g, g[n].fields[i].typ, fields[i].shape);
        }
      case _ =>
    }
  }

  /** In a tree no chain of slices is longer than the type is deep. */
  lemma {:induction false} TreeEnds(g: Graph, n: TypeSpec, s: Shapes.Shape, m: TypeSpec)
    requires Tree(g, n, s) && m in NodesOf(g, n, s)
    ensures Ends(g, m, Merge.Depth(s))
    decreases s
  {
    match s
    case Slice(Some(e)) =>
      if m == n {
        TreeEnds(g, g[n].element, e, g[n].element);
      } else {
        TreeEnds(g, g[n].element, e, m);
        EndsLater(g, m, Merge.Depth(e), Merge.Depth(s));
      }
    case Struct(fields) =>
      if m != n {
        var i :| 0 <= i < |fields| && m in NodesOf(g, g[n].fields[i].typ, fields[i].shape);
        TreeEnds(g, g[n].fields[i].typ, fields[i].shape, m);
        EndsLater(g, m, Merge.Depth(fields[i].shape), Merge.Depth(s));
      }
    case _ =>
  }

  lemma RootNotBelow(g: Graph, n: TypeSpec, s: Shapes.Shape, m: TypeSpec)
    requires Tree(g, n, s) && m in NodesOf(g, n, s) && m in g
    ensures n !in Children(g[m])
  {
    TreeClosed(g, n, s);
  }

  /** Every node of a tree has one parent. */
  lemma {:induction false} OneParent(g: Graph, n: TypeSpec, s: Shapes.Shape, m: TypeSpec, m': TypeSpec, c: TypeSpec)
    requires Tree(g, n, s) && m in NodesOf(g, n, s) && m' in NodesOf(g, n, s)
    requires m in g && m' in g && c in Children(g[m]) && c in Children(g[m'])
    ensures m == m'
    decreases s
  {
    match s
    case Slice(Some(e)) =>
      if m == n && m' != n {
        RootNotBelow(g, g[n].element, e, m');
      } else if m' == n && m != n {
        RootNotBelow(g, g[n].element, e, m);
      } else if m != n {
        OneParent(g, g[n].element, e, m, m', c);
      }
    case Struct(fields) =>
      var i := FieldAbove(g, n, fields, m, c);
      var j := FieldAbove(g, n, fields, m', c);
      assert i == j;
      if m == n && m' != n {
        RootNotBelow(g, g[n].fields[i].typ, fields[i].shape, m');
      } else if m' == n && m != n {
        RootNotBelow(g, g[n].fields[i].typ, fields[i].shape, m);
      } else if m != n {
        OneParent(g, g[n].fields[i].typ, fields[i].shape, m, m', c);
      }
    case _ =>
  }

  /** The field below which a child of a node of the tree lies. */
  lemma FieldAbove(g: Graph, n: TypeSpec, fields: seq<Shapes.Field>, m: TypeSpec, c: TypeSpec) returns (i: nat)
    requires Tree(g, n, Shapes.Struct(fields)) && m in NodesOf(g, n, Shapes.Struct(fields))
    requires m in g && c in Children(g[m])
    ensures i < |fields| && c in NodesOf(g, g[n].fields[i].typ, fields[i].shape)
    ensures if m == n then c == g[n].fields[i].typ else m in NodesOf(g, g[n].fields[i].typ, fields[i].shape)
  {
    if m == n {
      i :| 0 <= i < |fields| && g[n].fields[i].typ == c;
    } else {
      i :| 0 <= i < |fields| && m in NodesOf(g, g[n].fields[i].typ, fields[i].shape);
      TreeClosed(g, g[n].fields[i].typ, fields[i].shape);
    }
  }

  // ---------- the walk through a tree ----------

  /** The nodes of a tree, each before what is below it. */
  ghost function PreOrder(g: Graph, n: TypeSpec, s: Shapes.Shape): seq<TypeSpec>
    requires Represents(g, n, s)
    decreases s, 0
  {
    match s
    case Slice(Some(e)) => [n] + PreOrder(g, g[n].element, e)
    case Struct(fields) => [n] + PreOrderFrom(g, n, fields, 0)
    case _ => [n]
  }

  ghost function PreOrderFrom(g: Graph, n: TypeSpec, fields: seq<Shapes.Field>, i: nat): seq<TypeSpec>
    requires Represents(g, n, Shapes.Struct(fields)) && i <= |fields|
    decreases fields, |fields| - i
  {
    if i == |fields| then [] else
      PreOrder(g, g[n].fields[i].typ, fields[i].shape) + PreOrderFrom(g, n, fields, i + 1)
  }

  /** In a tree the walk meets nothing twice and follows that order. */
  lemma {:induction false} WalkTree(g: Graph, n: TypeSpec, s: Shapes.Shape, seen: set<TypeSpec>)
    requires Tree(g, n, s) && NodesOf(g, n, s) !! seen
    ensures Walk(g, n, seen) == PreOrder(g, n, s) && Set(PreOrder(g, n, s)) == NodesOf(g, n, s)
    decreases s, 0
  {
    assert n in NodesOf(g, n, s);
    match s
    case Slice(Some(e)) =>
      WalkTree(g, g[n].element, e, seen + {n});
      WalkSingle(g, g[n].element, seen + {n});
    case Struct(fields) =>
      WalkFields(g, n, fields, 0, seen + {n});
      assert Children(g[n])[0..] == Children(g[n]);
    case _ =>
  }

  lemma WalkSingle(g: Graph, t: TypeSpec, seen: set<TypeSpec>)
    ensures WalkAll(g, [t], seen) == Walk(g, t, seen)
  {
    assert [t][1..] == [];
  }

  ghost function NodesFrom(g: Graph, n: TypeSpec, fields: seq<Shapes.Field>, i: nat): set<TypeSpec>
    requires Represents(g, n, Shapes.Struct(fields))
  {
    set j, m | i <= j < |fields| && m in NodesOf(g, g[n].fields[j].typ, fields[j].shape) :: m
  }

  lemma {:induction false} WalkFields(g: Graph, n: TypeSpec, fields: seq<Shapes.Field>, i: nat, seen: set<TypeSpec>)
    requires Tree(g, n, Shapes.Struct(fields)) && i <= |fields| && NodesFrom(g, n, fields, i) !! seen
    ensures WalkAll(g, Children(g[n])[i..], seen) == PreOrderFrom(g, n, fields, i)
    ensures Set(PreOrderFrom(g, n, fields, i)) == NodesFrom(g, n, fields, i)
    decreases fields, |fields| - i
  {
    if i < |fields| {
      var types, t := Children(g[n]), g[n].fields[i].typ;
      assert types[i..][0] == t && types[i..][1..] == types[i + 1..];
      assert NodesOf(g, t, fields[i].shape) !! seen;
      WalkTree(g, t, fields[i].shape, seen);
      var seen' := seen + Set(Walk(g, t, seen));
      assert NodesFrom(g, n, fields, i + 1) !! seen';
      WalkFields(g, n, fields, i + 1, seen');
      assert NodesFrom(g, n, fields, i) == NodesOf(g, t, fields[i].shape) + NodesFrom(g, n, fields, i + 1);
    }
  }

  // ---------- allocation ----------

  /** A field whose type is the tree made of exactly the nodes of part. */
  ghost predicate FieldTree(g: Graph, spec: FieldSpec, field: Shapes.Field, part: set<TypeSpec>) {
    spec.name == field.name && Tree(g, spec.typ, field.shape) && NodesOf(g, spec.typ, field.shape) == part
  }

  lemma FieldTreeFrame(g: Graph, g': Graph, spec: FieldSpec, field: Shapes.Field, part: set<TypeSpec>)
    requires FieldTree(g, spec, field, part) && forall m <- part :: m in g && m in g' && g'[m] == g[m]
    ensures FieldTree(g', spec, field, part)
  {
    TreeFrame(g, g', spec.typ, field.shape);
  }

  /** The trees of the fields of a struct that is being built. */
  ghost predicate FieldTrees(g: Graph, specs: seq<FieldSpec>, fields: seq<Shapes.Field>, parts: seq<set<TypeSpec>>) {
    && |specs| == |fields| == |parts|
    && (forall i :: 0 <= i < |parts| ==> parts[i] <= g.Keys)
    && (forall i {:trigger FieldTree(g, specs[i], fields[i], parts[i])} :: 0 <= i < |parts| ==>
          FieldTree(g, specs[i], fields[i], parts[i]))
    && (forall i, j :: 0 <= i < j < |parts| ==> parts[i] !! parts[j])
  }

  lemma FieldTreesNext(g: Graph, h: Graph, specs: seq<FieldSpec>, fields: seq<Shapes.Field>,
                       parts: seq<set<TypeSpec>>, spec: FieldSpec, field: Shapes.Field)
    requires FieldTrees(g, specs, fields, parts) && g.Keys !! h.Keys && FieldTree(h, spec, field, h.Keys)
    ensures FieldTrees(g + h, specs + [spec], fields + [field], parts + [h.Keys])
  {
    FieldTreeFrame(h, g + h, spec, field, h.Keys);
    forall i | 0 <= i < |parts|
      ensures FieldTree(g + h, specs[i], fields[i], parts[i])
    {
      FieldTreeFrame(g, g + h, specs[i], fields[i], parts[i]);
    }
  }

  ghost function Union(parts: seq<set<TypeSpec>>): set<TypeSpec> {
    set i, m | 0 <= i < |parts| && m in parts[i] :: m
  }

  /** The trees of fields, of which nodes consists. */
  ghost predicate Complete(g: Graph, specs: seq<FieldSpec>, fields: seq<Shapes.Field>, parts: seq<set<TypeSpec>>) {
    FieldTrees(g, specs, fields, parts) && Union(parts) == g.Keys
  }

  lemma UnionNext(parts: seq<set<TypeSpec>>, more: set<TypeSpec>)
    ensures Union(parts + [more]) == Union(parts) + more
  {
    var parts' := parts + [more];
    forall m | m in Union(parts) + more
      ensures m in Union(parts')
    {
      if m in more {
        assert m in parts'[|parts|];
      } else {
        var i :| 0 <= i < |parts| && m in parts[i];
        assert m in parts'[i];
      }
    }
  }

  lemma NextField(g: Graph, h: Graph, specs: seq<FieldSpec>, fields: seq<Shapes.Field>,
                  parts: seq<set<TypeSpec>>, spec: FieldSpec)
    requires fields != [] && g.Keys !! h.Keys && Complete(g, specs, fields[..|fields| - 1], parts)
    requires FieldTree(h, spec, fields[|fields| - 1], h.Keys)
    ensures Complete(g + h, specs + [spec], fields, parts + [h.Keys])
  {
    var k := |fields| - 1;
    assert fields == fields[..k] + [fields[k]];
    UnionNext(parts, h.Keys);
    FieldTreesNext(g, h, specs, fields[..k], parts, spec, fields[k]);
  }

  lemma FieldTreesFrame(g: Graph, g': Graph, specs: seq<FieldSpec>, fields: seq<Shapes.Field>, parts: seq<set<TypeSpec>>)
    requires FieldTrees(g, specs, fields, parts) && forall m <- g :: m in g' && g'[m] == g[m]
    ensures FieldTrees(g', specs, fields, parts)
  {
    forall i | 0 <= i < |parts|
      ensures FieldTree(g', specs[i], fields[i], parts[i])
    {
      FieldTreeFrame(g, g', specs[i], fields[i], parts[i]);
    }
  }

  lemma StructTree(g: Graph, n: TypeSpec, specs: seq<FieldSpec>, fields: seq<Shapes.Field>, parts: seq<set<TypeSpec>>)
    requires FieldTrees(g, specs, fields, parts) && n in g && n !in Union(parts)
    requires g[n].kind == KindStruct && g[n].fields == specs
    ensures Tree(g, n, Shapes.Struct(fields)) && NodesOf(g, n, Shapes.Struct(fields)) == {n} + Union(parts)
  {
    forall i | 0 <= i < |fields|
      ensures specs[i].name == fields[i].name && Tree(g, specs[i].typ, fields[i].shape)
      ensures NodesOf(g, specs[i].typ, fields[i].shape) == parts[i] && n !in parts[i]
    {
      assert FieldTree(g, specs[i], fields[i], parts[i]);
    }
  }

  /** g is what its nodes hold at present, and none of them has a name. */
  ghost predicate Current(g: Graph)
    reads g.Keys
  {
    g == Snap(g.Keys) && forall n <- g :: g[n].name == ""
  }

  lemma CurrentJoined(g: Graph, h: Graph)
    requires Current(g) && Current(h)
    ensures Current(g + h)
  {
  }

  lemma StructBuilt(g: Graph, n: TypeSpec, specs: seq<FieldSpec>, fields: seq<Shapes.Field>, parts: seq<set<TypeSpec>>)
    requires Complete(g, specs, fields, parts) && n !in g
    ensures var g' := g[n := Node(KindStruct, null, "", "", specs)];
            Tree(g', n, Shapes.Struct(fields)) && NodesOf(g', n, Shapes.Struct(fields)) == g'.Keys
  {
    var g' := g[n := Node(KindStruct, null, "", "", specs)];
    FieldTreesFrame(g, g', specs, fields, parts);
    StructTree(g', n, specs, fields, parts);
  }

  lemma SliceBuilt(g: Graph, n: TypeSpec, element: TypeSpec, e: Shapes.Shape)
    requires Tree(g, element, e) && NodesOf(g, element, e) == g.Keys && n !in g
    ensures var g' := g[n := Node(KindSlice, element, "", "", [])];
            Tree(g', n, Shapes.Slice(Some(e))) && NodesOf(g', n, Shapes.Slice(Some(e))) == g'.Keys
  {
    TreeFrame(g, g[n := Node(KindSlice, element, "", "", [])], element, e);
  }

  method NewNode(kind: Kind, element: TypeSpec?, scalar: string, fields: seq<FieldSpec>, ghost g: Graph)
    returns (n: TypeSpec, ghost g': Graph)
    requires Current(g)
    ensures fresh(n) && Current(g') && g' == g[n := Node(kind, element, "", scalar, fields)]
  {
    n := new TypeSpec(kind, element, scalar, fields);
    g' := g[n := Node(kind, element, "", scalar, fields)];
  }

  /** The merged type as inferNode and mergeShapes allocate it: one new node for each place. */
  method Build(s: Shapes.Shape) returns (n: TypeSpec, ghost g: Graph)
    ensures Current(g) && fresh(g.Keys)
    ensures Tree(g, n, s) && NodesOf(g, n, s) == g.Keys
    decreases s, 0
  {
    match s
    case Null =>
      n, g := NewNode(KindNull, null, "", [], map[]);
    case Scalar(name) =>
      n, g := NewNode(KindScalar, null, name, [], map[]);
    case Slice(None) =>
      n, g := NewNode(KindSlice, null, "", [], map[]);
    case Slice(Some(e)) =>
      n, g := BuildSlice(e);
    case Struct(fields) =>
      n, g := BuildStruct(fields);
  }

  method BuildSlice(e: Shapes.Shape) returns (n: TypeSpec, ghost g: Graph)
    ensures Current(g) && fresh(g.Keys)
    ensures Tree(g, n, Shapes.Slice(Some(e))) && NodesOf(g, n, Shapes.Slice(Some(e))) == g.Keys
    decreases e, 1
  {
    var element;
    ghost var below;
    element, below := Build(e);
    n, g := NewNode(KindSlice, element, "", [], below);
    SliceBuilt(below, n, element, e);
  }

  method BuildStruct(fields: seq<Shapes.Field>) returns (n: TypeSpec, ghost g: Graph)
    ensures Current(g) && fresh(g.Keys)
    ensures Tree(g, n, Shapes.Struct(fields)) && NodesOf(g, n, Shapes.Struct(fields)) == g.Keys
    decreases fields, 1
  {
    var specs: seq<FieldSpec>;
    ghost var below, parts;
    specs, below, parts := BuildFields(fields);
    n, g := NewNode(KindStruct, null, "", specs, below);
    StructBuilt(below, n, specs, fields, parts);
  }

  method BuildFields(fields: seq<Shapes.Field>)
    returns (specs: seq<FieldSpec>, ghost g: Graph, ghost parts: seq<set<TypeSpec>>)
    ensures Current(g) && fresh(g.Keys)
    ensures Complete(g, specs, fields, parts)
    decreases fields, 0
  {
    if fields == [] {
      return [], map[], [];
    }
    var k := |fields| - 1;
    specs, g, parts := BuildFields(fields[..k]);
    var typ;
    ghost var h;
    typ, h := Build(fields[k].shape);
    CurrentJoined(g, h);
    NextField(g, h, specs, fields, parts, FieldSpec(fields[k].name, typ));
    return specs + [FieldSpec(fields[k].name, typ)], g + h, parts + [h.Keys];
  }
}
