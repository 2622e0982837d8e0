/** The mutable type nodes of the finishing passes, their graph at one moment, and the
    depth-first walk visitWith takes through it (cmd/themegen/config_infer.go). */
module TypeGraph {
  import opened Sets
  import opened Wrappers
  import Shapes

  datatype Kind = KindScalar | KindStruct | KindSlice | KindNull

  datatype FieldSpec = FieldSpec(name: string, typ: TypeSpec)

  class TypeSpec {
    var element: TypeSpec?
    var name: string
    var scalar: string
    var fields: seq<FieldSpec>
    var kind: Kind

    /** A literal &TypeSpec{...} without a name. */
    constructor (kind: Kind, element: TypeSpec?, scalar: string, fields: seq<FieldSpec>)
      ensures this.kind == kind && this.element == element && this.scalar == scalar && this.fields == fields
      ensures name == ""
    {
      this.kind, this.element, this.scalar, this.fields, name := kind, element, scalar, fields, "";
    }

    /** The literal &TypeSpec{Kind: KindSlice, Element: element}. */
    constructor Slice(element: TypeSpec)
      ensures kind == KindSlice && this.element == element
      ensures name == "" && scalar == "" && fields == []
    {
      this.element := element;
      name, scalar, fields, kind := "", "", [], KindSlice;
    }
  }

  /** One node's fields at one moment. */
  datatype Node = Node(kind: Kind, element: TypeSpec?, name: string, scalar: string, fields: seq<FieldSpec>)

  type Graph = map<TypeSpec, Node>

  function Snap(nodes: set<TypeSpec>): (g: Graph)
    reads nodes
    ensures g.Keys == nodes
  {
    map n | n in nodes :: Node(n.kind, n.element, n.name, n.scalar, n.fields)
  }

  function Children(n: Node): seq<TypeSpec> {
    match n.kind
    case KindStruct => FieldTypes(n.fields)
    case KindSlice => if n.element == null then [] else [n.element]
    case _ => []
  }

  function FieldTypes(fields: seq<FieldSpec>): (r: seq<TypeSpec>)
    ensures |r| == |fields| && forall i :: 0 <= i < |fields| ==> r[i] == fields[i].typ
  {
    seq(|fields|, i requires 0 <= i < |fields| => fields[i].typ)
  }

  ghost predicate Closed(g: Graph) {
    forall n <- g :: forall c <- Children(g[n]) :: c in g
  }

  lemma FieldTypesInside(g: Graph, n: TypeSpec)
    requires Closed(g) && n in g && g[n].kind == KindStruct
    ensures forall f <- g[n].fields :: f.typ in g
  {
    forall f <- g[n].fields
      ensures f.typ in g
    {
      var i :| 0 <= i < |g[n].fields| && g[n].fields[i] == f;
      assert f.typ == Children(g[n])[i];
    }
  }

  /** No field name occurs twice in a struct. */
  ghost predicate DistinctFields(fields: seq<FieldSpec>) {
    forall i, j :: 0 <= i < j < |fields| ==> fields[i].name != fields[j].name
  }

  ghost predicate AllDistinct(g: Graph) {
    forall n <- g | g[n].kind == KindStruct :: DistinctFields(g[n].fields)
  }

  // ---------- chains of slices ----------

  /** Following elements from t, at most k slices come one after the other. */
  ghost predicate Ends(g: Graph, t: TypeSpec, k: nat) {
    t in g && (g[t].kind == KindSlice && g[t].element != null ==> k > 0 && Ends(g, g[t].element, k - 1))
  }

  /** No cycle of slices alone: the source follows elements without a record of visited nodes. */
  ghost predicate ChainsEnd(g: Graph, bound: nat) {
    forall t {:trigger Ends(g, t, bound)} | t in g :: Ends(g, t, bound)
  }

  lemma {:induction false} EndsLater(g: Graph, t: TypeSpec, k: nat, k': nat)
    requires Ends(g, t, k) && k <= k'
    ensures Ends(g, t, k')
    decreases k
  {
    if g[t].kind == KindSlice && g[t].element != null {
      EndsLater(g, g[t].element, k - 1, k' - 1);
    }
  }

  /** Chains depend on kinds and elements only. */
  lemma {:induction false} SameElementsEnd(g: Graph, g': Graph, t: TypeSpec, k: nat)
    requires Ends(g, t, k)
    requires g.Keys == g'.Keys && forall n <- g :: g'[n].kind == g[n].kind && g'[n].element == g[n].element
    ensures Ends(g', t, k)
    decreases k
  {
    if g[t].kind == KindSlice && g[t].element != null {
      SameElementsEnd(g, g', g[t].element, k - 1);
    }
  }

  // ---------- reachability ----------

  ghost predicate ReachesIn(g: Graph, a: TypeSpec, b: TypeSpec, steps: nat) {
    if steps == 0 then a == b
    else a in g && exists c <- Children(g[a]) :: ReachesIn(g, c, b, steps - 1)
  }

  ghost predicate Reaches(g: Graph, a: TypeSpec, b: TypeSpec) {
    exists steps: nat :: ReachesIn(g, a, b, steps)
  }

  lemma ReachesSelf(g: Graph, a: TypeSpec)
    ensures Reaches(g, a, a)
  {
    assert ReachesIn(g, a, a, 0);
  }

  lemma ReachesStep(g: Graph, a: TypeSpec, c: TypeSpec, b: TypeSpec)
    requires a in g && c in Children(g[a]) && Reaches(g, c, b)
    ensures Reaches(g, a, b)
  {
    var steps: nat :| ReachesIn(g, c, b, steps);
    assert ReachesIn(g, a, b, steps + 1);
  }

  /** A set that holds the children of its members is never left. */
  lemma {:induction false} ReachableStaysInside(g: Graph, inside: set<TypeSpec>, a: TypeSpec, b: TypeSpec, steps: nat)
    requires a in inside && ReachesIn(g, a, b, steps)
    requires forall n <- inside | n in g :: forall c <- Children(g[n]) :: c in inside
    ensures b in inside
  {
    if steps > 0 {
      var c :| c in Children(g[a]) && ReachesIn(g, c, b, steps - 1);
      ReachableStaysInside(g, inside, c, b, steps - 1);
    }
  }

  // ---------- the walk ----------

  /** The nodes visitWith hands to its callback, in order, when the callback leaves the edges alone. */
  ghost function Walk(g: Graph, spec: TypeSpec?, seen: set<TypeSpec>): seq<TypeSpec>
    decreases |g.Keys - seen|, 0
  {
    if spec == null || spec in seen || spec !in g then [] else
      assert g.Keys - (seen + {spec}) < g.Keys - seen;
      SmallerSet(g.Keys - (seen + {spec}), g.Keys - seen);
      [spec] + WalkAll(g, Children(g[spec]), seen + {spec})
  }

  ghost function WalkAll(g: Graph, specs: seq<TypeSpec>, seen: set<TypeSpec>): seq<TypeSpec>
    decreases |g.Keys - seen|, 1 + |specs|
  {
    if specs == [] then [] else
      var first := Walk(g, specs[0], seen);
      SubsetSize(g.Keys - (seen + Set(first)), g.Keys - seen);
      first + WalkAll(g, specs[1..], seen + Set(first))
  }

  ghost function Set(s: seq<TypeSpec>): set<TypeSpec> {
    set n | n in s
  }

  ghost predicate Distinct(calls: seq<TypeSpec>) {
    forall i, j :: 0 <= i < j < |calls| ==> calls[i] != calls[j]
  }

  lemma DistinctJoined(first: seq<TypeSpec>, rest: seq<TypeSpec>)
    requires Distinct(first) && Distinct(rest) && forall n <- rest :: n !in Set(first)
    ensures Distinct(first + rest)
  {
    var calls := first + rest;
    forall i, j | 0 <= i < j < |calls|
      ensures calls[i] != calls[j]
    {
      if i < |first| <= j {
        assert calls[j] in rest && calls[i] in Set(first);
      }
    }
  }

  /** At most once, and never a node seen before. */
  lemma {:induction false} WalkFresh(g: Graph, spec: TypeSpec?, seen: set<TypeSpec>)
    ensures Distinct(Walk(g, spec, seen))
    ensures forall n <- Walk(g, spec, seen) :: n in g && n !in seen
    decreases |g.Keys - seen|, 0
  {
    if spec != null && spec !in seen && spec in g {
      SmallerSet(g.Keys - (seen + {spec}), g.Keys - seen);
      WalkAllFresh(g, Children(g[spec]), seen + {spec});
    }
  }

  lemma {:induction false} WalkAllFresh(g: Graph, specs: seq<TypeSpec>, seen: set<TypeSpec>)
    ensures Distinct(WalkAll(g, specs, seen))
    ensures forall n <- WalkAll(g, specs, seen) :: n in g && n !in seen
    decreases |g.Keys - seen|, 1 + |specs|
  {
    if specs != [] {
      var first := Walk(g, specs[0], seen);
      WalkFresh(g, specs[0], seen);
      SubsetSize(g.Keys - (seen + Set(first)), g.Keys - seen);
      WalkAllFresh(g, specs[1..], seen + Set(first));
      DistinctJoined(first, WalkAll(g, specs[1..], seen + Set(first)));
    }
  }

  lemma {:induction false} WalkReaches(g: Graph, spec: TypeSpec, seen: set<TypeSpec>)
    ensures forall n <- Walk(g, spec, seen) :: Reaches(g, spec, n)
    decreases |g.Keys - seen|, 0
  {
    if spec !in seen && spec in g {
      SmallerSet(g.Keys - (seen + {spec}), g.Keys - seen);
      ReachesSelf(g, spec);
      forall n <- WalkAll(g, Children(g[spec]), seen + {spec})
        ensures Reaches(g, spec, n)
      {
        var c := WalkAllReaches(g, Children(g[spec]), seen + {spec}, n);
        ReachesStep(g, spec, c, n);
      }
    }
  }

  lemma {:induction false} WalkAllReaches(g: Graph, specs: seq<TypeSpec>, seen: set<TypeSpec>, n: TypeSpec)
    returns (c: TypeSpec)
    requires n in WalkAll(g, specs, seen)
    ensures c in specs && Reaches(g, c, n)
    decreases |g.Keys - seen|, 1 + |specs|
  {
    var first := Walk(g, specs[0], seen);
    if n in first {
      WalkReaches(g, specs[0], seen);
      c := specs[0];
    } else {
      SubsetSize(g.Keys - (seen + Set(first)), g.Keys - seen);
      c := WalkAllReaches(g, specs[1..], seen + Set(first), n);
    }
  }

  /** What was visited, together with what had been seen, holds the children of what was visited. */
  lemma {:induction false} WalkComplete(g: Graph, spec: TypeSpec?, seen: set<TypeSpec>)
    requires Closed(g) && (spec != null ==> spec in g)
    ensures var after := seen + Set(Walk(g, spec, seen));
            && (spec != null ==> spec in after)
            && forall n <- Walk(g, spec, seen) :: n in g && forall c <- Children(g[n]) :: c in after
    decreases |g.Keys - seen|, 0
  {
    if spec != null && spec !in seen {
      SmallerSet(g.Keys - (seen + {spec}), g.Keys - seen);
      WalkAllComplete(g, Children(g[spec]), seen + {spec});
      assert seen + Set(Walk(g, spec, seen)) ==
             seen + {spec} + Set(WalkAll(g, Children(g[spec]), seen + {spec}));
    }
  }

  lemma {:induction false} WalkAllComplete(g: Graph, specs: seq<TypeSpec>, seen: set<TypeSpec>)
    requires Closed(g) && forall c <- specs :: c in g
    ensures var after := seen + Set(WalkAll(g, specs, seen));
            && (forall c <- specs :: c in after)
            && forall n <- WalkAll(g, specs, seen) :: n in g && forall c <- Children(g[n]) :: c in after
    decreases |g.Keys - seen|, 1 + |specs|
  {
    if specs != [] {
      var first := Walk(g, specs[0], seen);
      WalkComplete(g, specs[0], seen);
      SubsetSize(g.Keys - (seen + Set(first)), g.Keys - seen);
      WalkAllComplete(g, specs[1..], seen + Set(first));
      assert seen + Set(WalkAll(g, specs, seen)) ==
             seen + Set(first) + Set(WalkAll(g, specs[1..], seen + Set(first)));
    }
  }

  /** The walk depends on the children of what is reachable only. */
  lemma {:induction false} SameWalk(g: Graph, g': Graph, spec: TypeSpec?, seen: set<TypeSpec>)
    requires Closed(g) && (spec != null ==> spec in g)
    requires g.Keys <= g'.Keys && forall n <- g :: Children(g'[n]) == Children(g[n])
    ensures Walk(g', spec, seen) == Walk(g, spec, seen)
    decreases |g.Keys - seen|, 0
  {
    if spec != null && spec !in seen {
      SmallerSet(g.Keys - (seen + {spec}), g.Keys - seen);
      SameWalkAll(g, g', Children(g[spec]), seen + {spec});
    }
  }

  lemma {:induction false} SameWalkAll(g: Graph, g': Graph, specs: seq<TypeSpec>, seen: set<TypeSpec>)
    requires Closed(g) && forall c <- specs :: c in g
    requires g.Keys <= g'.Keys && forall n <- g :: Children(g'[n]) == Children(g[n])
    ensures WalkAll(g', specs, seen) == WalkAll(g, specs, seen)
    decreases |g.Keys - seen|, 1 + |specs|
  {
    if specs != [] {
      SameWalk(g, g', specs[0], seen);
      var first := Walk(g, specs[0], seen);
      SubsetSize(g.Keys - (seen + Set(first)), g.Keys - seen);
      SameWalkAll(g, g', specs[1..], seen + Set(first));
    }
  }

  /** visit calls back exactly once on every node reachable from the root, cycles or not, and
      on no other; the root comes first. */
  lemma VisitsExactlyTheReachable(g: Graph, root: TypeSpec)
    requires Closed(g) && root in g
    ensures var calls := Walk(g, root, {});
            && calls != [] && calls[0] == root
            && Distinct(calls)
            && (forall n :: n in calls <==> Reaches(g, root, n))
  {
    var calls := Walk(g, root, {});
    WalkFresh(g, root, {});
    WalkReaches(g, root, {});
    WalkComplete(g, root, {});
    forall n | Reaches(g, root, n)
      ensures n in calls
    {
      var steps: nat :| ReachesIn(g, root, n, steps);
      ReachableStaysInside(g, Set(calls), root, n, steps);
    }
  }

  /** The walk does not leave a set that holds the children of its members. */
  lemma WalkInside(g: Graph, root: TypeSpec, inside: set<TypeSpec>)
    requires Closed(g) && root in g && root in inside
    requires forall n <- inside | n in g :: forall c <- Children(g[n]) :: c in inside
    ensures forall n <- Walk(g, root, {}) :: n in inside
  {
    VisitsExactlyTheReachable(g, root);
    forall n <- Walk(g, root, {})
      ensures n in inside
    {
      assert Reaches(g, root, n);
      var steps: nat :| ReachesIn(g, root, n, steps);
      ReachableStaysInside(g, inside, root, n, steps);
    }
  }

  /** After the first i of specs, calls has been visited and seen' is what has been seen. */
  ghost predicate WalkedTo(g: Graph, specs: seq<TypeSpec>, i: nat, calls: seq<TypeSpec>,
                           seen: set<TypeSpec>, seen': set<TypeSpec>)
  {
    && i <= |specs|
    && seen' == seen + Set(calls)
    && calls + WalkAll(g, specs[i..], seen') == WalkAll(g, specs, seen)
  }

  lemma WalkedNone(g: Graph, specs: seq<TypeSpec>, seen: set<TypeSpec>)
    ensures WalkedTo(g, specs, 0, [], seen, seen)
  {
    assert specs[0..] == specs && seen + Set([]) == seen;
  }

  lemma WalkedSmaller(g: Graph, specs: seq<TypeSpec>, i: nat, calls: seq<TypeSpec>, seen: set<TypeSpec>, seen': set<TypeSpec>)
    requires WalkedTo(g, specs, i, calls, seen, seen')
    ensures |g.Keys - seen'| <= |g.Keys - seen|
  {
    SubsetSize(g.Keys - seen', g.Keys - seen);
  }

  lemma WalkedNext(g: Graph, specs: seq<TypeSpec>, i: nat, calls: seq<TypeSpec>, more: seq<TypeSpec>,
                   seen: set<TypeSpec>, seen': set<TypeSpec>)
    requires i < |specs| && WalkedTo(g, specs, i, calls, seen, seen') && more == Walk(g, specs[i], seen')
    ensures WalkedTo(g, specs, i + 1, calls + more, seen, seen' + Set(more))
  {
    assert seen' + Set(more) == seen + Set(calls + more);
    assert specs[i..][0] == specs[i] && specs[i..][1..] == specs[i + 1..];
    var rest := WalkAll(g, specs[i + 1..], seen' + Set(more));
    assert WalkAll(g, specs[i..], seen') == more + rest;
    assert calls + (more + rest) == (calls + more) + rest;
  }

  lemma WalkedAll(g: Graph, specs: seq<TypeSpec>, calls: seq<TypeSpec>, seen: set<TypeSpec>, seen': set<TypeSpec>)
    requires WalkedTo(g, specs, |specs|, calls, seen, seen')
    ensures calls == WalkAll(g, specs, seen) && seen' == seen + Set(calls)
  {
    assert specs[|specs|..] == [];
  }

  lemma SetOfFirst(n: TypeSpec, rest: seq<TypeSpec>)
    ensures Set([n] + rest) == {n} + Set(rest)
  {
  }

  lemma WalkStep(g: Graph, spec: TypeSpec, seen: set<TypeSpec>)
    requires spec in g && spec !in seen
    ensures Walk(g, spec, seen) == [spec] + WalkAll(g, Children(g[spec]), seen + {spec})
    ensures |g.Keys - (seen + {spec})| < |g.Keys - seen|
  {
    SmallerSet(g.Keys - (seen + {spec}), g.Keys - seen);
  }

  /** visitWith: seen is the shared map, calls collects the callback's arguments; g is the
      graph at the call. */
  method VisitWith(spec: TypeSpec?, seen: set<TypeSpec>, ghost g: Graph)
    returns (calls: seq<TypeSpec>, seen': set<TypeSpec>)
    requires g == Snap(g.Keys) && Closed(g) && (spec != null ==> spec in g)
    ensures calls == Walk(g, spec, seen)
    ensures seen' == seen + Set(calls)
    decreases |g.Keys - seen|, 0, 0
  {
    if spec == null || spec in seen {
      return [], seen;
    }
    WalkStep(g, spec, seen);
    var more;
    more, seen' := VisitChildren(spec, seen + {spec}, g);
    calls := [spec] + more;
    SetOfFirst(spec, more);
  }

  /** The switch over the kind. */
  method VisitChildren(spec: TypeSpec, seen: set<TypeSpec>, ghost g: Graph)
    returns (calls: seq<TypeSpec>, seen': set<TypeSpec>)
    requires g == Snap(g.Keys) && Closed(g) && spec in g
    ensures calls == WalkAll(g, Children(g[spec]), seen)
    ensures seen' == seen + Set(calls)
    decreases |g.Keys - seen|, 2, 0
  {
    match spec.kind {
      case KindStruct =>
        calls, seen' := VisitFields(spec, seen, g);
      case KindSlice =>
        calls, seen' := VisitElement(spec, seen, g);
      case _ =>
        calls, seen' := [], seen;
    }
  }

  method VisitElement(spec: TypeSpec, seen: set<TypeSpec>, ghost g: Graph)
    returns (calls: seq<TypeSpec>, seen': set<TypeSpec>)
    requires g == Snap(g.Keys) && Closed(g) && spec in g && spec.kind == KindSlice
    ensures calls == WalkAll(g, Children(g[spec]), seen)
    ensures seen' == seen + Set(calls)
    decreases |g.Keys - seen|, 1, 0
  {
    assert forall c <- Children(g[spec]) :: c in g;
    calls, seen' := VisitWith(spec.element, seen, g);
    if spec.element != null {
      WalkedNone(g, [spec.element], seen);
      WalkedNext(g, [spec.element], 0, [], calls, seen, seen);
      assert [] + calls == calls;
      WalkedAll(g, [spec.element], calls, seen, seen');
    }
  }

  /** The loop over the fields of a struct. */
  method VisitFields(spec: TypeSpec, seen: set<TypeSpec>, ghost g: Graph)
    returns (calls: seq<TypeSpec>, seen': set<TypeSpec>)
    requires g == Snap(g.Keys) && Closed(g) && spec in g && spec.kind == KindStruct
    ensures calls == WalkAll(g, Children(g[spec]), seen)
    ensures seen' == seen + Set(calls)
    decreases |g.Keys - seen|, 1, 1
  {
    ghost var types := Children(g[spec]);
    calls, seen' := [], seen;
    WalkedNone(g, types, seen);
    for i := 0 to |spec.fields|
      invariant WalkedTo(g, types, i, calls, seen, seen')
    {
      calls, seen' := VisitField(spec, i, calls, seen', seen, g);
    }
    WalkedAll(g, types, calls, seen, seen');
  }

  /** One round of that loop. */
  method VisitField(spec: TypeSpec, i: nat, calls: seq<TypeSpec>, seen: set<TypeSpec>, ghost before: set<TypeSpec>, ghost g: Graph)
    returns (calls': seq<TypeSpec>, seen': set<TypeSpec>)
    requires g == Snap(g.Keys) && Closed(g) && spec in g && spec.kind == KindStruct && i < |spec.fields|
    requires WalkedTo(g, Children(g[spec]), i, calls, before, seen)
    ensures WalkedTo(g, Children(g[spec]), i + 1, calls', before, seen')
    decreases |g.Keys - before|, 1, 0
  {
    ghost var types := Children(g[spec]);
    assert types[i] == spec.fields[i].typ && types[i] in g;
    WalkedSmaller(g, types, i, calls, before, seen);
    var more;
    more, seen' := VisitWith(spec.fields[i].typ, seen, g);
    WalkedNext(g, types, i, calls, more, before, seen);
    calls' := calls + more;
  }

  // ---------- documents a node of a (possibly cyclic) graph admits ----------

  ghost predicate Admits(g: Graph, n: TypeSpec, d: Shapes.Doc)
    requires Closed(g) && n in g
    decreases d
  {
    match d
    case NullDoc => true
    case ScalarDoc(kind) => g[n].kind == KindScalar && Shapes.ScalarFits(kind, g[n].scalar)
    case SequenceDoc(items) =>
      && g[n].kind == KindSlice
      && if g[n].element == null then |items| == 0
         else g[n].element in Children(g[n]) && forall i <- items :: Admits(g, g[n].element, i)
    case MappingDoc(entries) =>
      g[n].kind == KindStruct && forall e <- entries :: AdmitsEntry(g, g[n].fields, e)
    case UnsupportedDoc => false
  }

  ghost predicate AdmitsEntry(g: Graph, fields: seq<FieldSpec>, e: Shapes.Entry)
    requires Closed(g)
    decreases e
  {
    e.key.StringKey? && exists f <- fields :: f.name == e.key.name && f.typ in g && Admits(g, f.typ, e.value)
  }

  /** The part of the graph below n is the finite type s. */
  ghost predicate Represents(g: Graph, n: TypeSpec, s: Shapes.Shape)
    decreases s
  {
    n in g && match s
    case Null => g[n].kind == KindNull
    case Scalar(scalar) => g[n].kind == KindScalar && g[n].scalar == scalar
    case Slice(None) => g[n].kind == KindSlice && g[n].element == null
    case Slice(Some(e)) => g[n].kind == KindSlice && g[n].element != null && Represents(g, g[n].element, e)
    case Struct(fields) =>
      && g[n].kind == KindStruct
      && |g[n].fields| == |fields|
      && forall i :: 0 <= i < |fields| ==>
           g[n].fields[i].name == fields[i].name && Represents(g, g[n].fields[i].typ, fields[i].shape)
  }

  /** On an acyclic part of the graph, a node admits what the type it represents admits. */
  lemma {:induction false} AdmitsIsFits(g: Graph, n: TypeSpec, s: Shapes.Shape, d: Shapes.Doc)
    requires Closed(g) && Represents(g, n, s)
    ensures Admits(g, n, d) <==> Shapes.Fits(d, s)
    decreases d
  {
    match d
    case SequenceDoc(items) =>
      if s.Slice? && s.element.Some? {
        assert g[n].element in Children(g[n]);
        forall i <- items
          ensures Admits(g, g[n].element, i) <==> Shapes.Fits(i, s.element.value)
        {
          AdmitsIsFits(g, g[n].element, s.element.value, i);
        }
      }
    case MappingDoc(entries) =>
      if s.Struct? {
        forall e <- entries
          ensures AdmitsEntry(g, g[n].fields, e) <==> Shapes.EntryFits(e, s.fields)
        {
          EntryIsFits(g, g[n].fields, s.fields, e);
        }
      }
    case _ =>
  }

  lemma {:induction false} EntryIsFits(g: Graph, fields: seq<FieldSpec>, shapes: seq<Shapes.Field>, e: Shapes.Entry)
    requires Closed(g) && |fields| == |shapes|
    requires forall i :: 0 <= i < |fields| ==>
               fields[i].name == shapes[i].name && Represents(g, fields[i].typ, shapes[i].shape)
    ensures AdmitsEntry(g, fields, e) <==> Shapes.EntryFits(e, shapes)
    decreases e
  {
    if e.key.StringKey? {
      forall i | 0 <= i < |fields|
        ensures Admits(g, fields[i].typ, e.value) <==> Shapes.Fits(e.value, shapes[i].shape)
      {
        AdmitsIsFits(g, fields[i].typ, shapes[i].shape, e.value);
      }
      if AdmitsEntry(g, fields, e) {
        var f :| f in fields && f.name == e.key.name && f.typ in g && Admits(g, f.typ, e.value);
        var i :| 0 <= i < |fields| && fields[i] == f;
        assert shapes[i] in shapes;
      }
      if Shapes.EntryFits(e, shapes) {
        var s :| s in shapes && s.name == e.key.name && Shapes.Fits(e.value, s.shape);
        var i :| 0 <= i < |shapes| && shapes[i] == s;
        assert fields[i] in fields;
      }
    }
  }
}
