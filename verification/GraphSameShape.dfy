/** sameShape on the nodes of a graph. The source keeps no record of visited pairs, so its
    recursion is followed here for a given number of nested calls; None means still running. */
module GraphSameShape {
  import opened Sets
  import opened Wrappers
  import opened TypeGraph
  import Shapes
  import Merge
  import S = SameShapes

  /** The lookup tables of sameStruct and isSubsetStruct: a later field of the same name wins. */
  function LastType(fields: seq<FieldSpec>, name: string): (r: TypeSpec?)
    ensures r != null ==> FieldSpec(name, r) in fields
    ensures r == null ==> forall f <- fields :: f.name != name
  {
    if fields == [] then null else
      var k := |fields| - 1;
      assert fields == fields[..k] + [fields[k]];
      if fields[k].name == name then fields[k].typ else LastType(fields[..k], name)
  }

  /** It is the last field of the name. */
  lemma {:induction false} LastTypeExactly(fields: seq<FieldSpec>, i: nat)
    requires i < |fields| && forall j :: i < j < |fields| ==> fields[j].name != fields[i].name
    ensures LastType(fields, fields[i].name) == fields[i].typ
  {
    if i < |fields| - 1 {
      LastTypeExactly(fields[..|fields| - 1], i);
    }
  }

  ghost function SameShape(g: Graph, a: TypeSpec?, b: TypeSpec?, calls: nat): Option<bool>
    decreases calls, 0
  {
    if calls == 0 then None
    else if a == null || b == null then Some(a == b)
    else if a !in g || b !in g || g[a].kind != g[b].kind then Some(false)
    else match g[a].kind
      case KindScalar => Some(g[a].scalar == g[b].scalar)
      case KindSlice =>
        if g[a].element == null || g[b].element == null then Some(true)
        else SameShape(g, g[a].element, g[b].element, calls - 1)
      case KindStruct =>
        if |g[a].fields| != |g[b].fields| then Some(false)
        else SameFields(g, g[a].fields, g[b].fields, calls - 1)
      case KindNull => Some(false)
  }

  /** The loop of sameStruct, and of isSubsetStruct, from the first field on. */
  ghost function SameFields(g: Graph, fields: seq<FieldSpec>, others: seq<FieldSpec>, calls: nat): Option<bool>
    decreases calls, 1 + |fields|
  {
    if fields == [] then Some(true) else
      var t := LastType(others, fields[0].name);
      if t == null then Some(false) else
        match SameShape(g, fields[0].typ, t, calls)
        case None => None
        case Some(false) => Some(false)
        case Some(true) => SameFields(g, fields[1..], others, calls)
  }

  // ---------- the code ----------

  method FieldTable(fields: seq<FieldSpec>) returns (byName: map<string, TypeSpec>)
    ensures forall n :: n in byName <==> LastType(fields, n) != null
    ensures forall n <- byName :: byName[n] == LastType(fields, n)
  {
    byName := map[];
    for i := 0 to |fields|
      invariant forall n :: n in byName <==> LastType(fields[..i], n) != null
      invariant forall n <- byName :: byName[n] == LastType(fields[..i], n)
    {
      assert fields[..i + 1][..i] == fields[..i];
      byName := byName[fields[i].name := fields[i].typ];
    }
    assert fields[..|fields|] == fields;
  }

  method MatchFields(fields: seq<FieldSpec>, others: seq<FieldSpec>, calls: nat, ghost g: Graph) returns (r: Option<bool>)
    requires g == Snap(g.Keys) && Closed(g)
    requires (forall f <- fields :: f.typ in g) && forall f <- others :: f.typ in g
    ensures r == SameFields(g, fields, others, calls)
    decreases calls, 1
  {
    var byName := FieldTable(others);
    for i := 0 to |fields|
      invariant SameFields(g, fields, others, calls) == SameFields(g, fields[i..], others, calls)
    {
      assert fields[i..][0] == fields[i] && fields[i..][1..] == fields[i + 1..];
      var f := fields[i];
      if f.name !in byName {
        return Some(false);
      }
      var same := CompareTypes(f.typ, byName[f.name], calls, g);
      if same != Some(true) {
        return same;
      }
    }
    return Some(true);
  }

  method CompareTypes(a: TypeSpec?, b: TypeSpec?, calls: nat, ghost g: Graph) returns (r: Option<bool>)
    requires g == Snap(g.Keys) && Closed(g) && (a != null ==> a in g) && (b != null ==> b in g)
    ensures r == SameShape(g, a, b, calls)
    decreases calls, 0
  {
    if calls == 0 {
      return None;
    }
    if a == null || b == null {
      return Some(a == b);
    }
    if a.kind != b.kind {
      return Some(false);
    }
    match a.kind
    case KindScalar => return Some(a.scalar == b.scalar);
    case KindSlice =>
      if a.element == null || b.element == null {
        return Some(true);
      }
      assert a.element in Children(g[a]) && b.element in Children(g[b]);
      r := CompareTypes(a.element, b.element, calls - 1, g);
    case KindStruct =>
      if |a.fields| != |b.fields| {
        return Some(false);
      }
      FieldTypesInside(g, a);
      FieldTypesInside(g, b);
      r := MatchFields(a.fields, b.fields, calls - 1, g);
    case KindNull => return Some(false);
  }

  // ---------- when it returns ----------

  /** An answer does not depend on how many calls were allowed. */
  lemma {:induction false} AnswerStays(g: Graph, a: TypeSpec?, b: TypeSpec?, calls: nat, more: nat)
    requires SameShape(g, a, b, calls).Some? && calls <= more
    ensures SameShape(g, a, b, more) == SameShape(g, a, b, calls)
    decreases calls, 0
  {
    if a != null && b != null && a in g && b in g && g[a].kind == g[b].kind {
      if g[a].kind == KindSlice && g[a].element != null && g[b].element != null {
        AnswerStays(g, g[a].element, g[b].element, calls - 1, more - 1);
      } else if g[a].kind == KindStruct && |g[a].fields| == |g[b].fields| {
        FieldsAnswerStays(g, g[a].fields, g[b].fields, calls - 1, more - 1);
      }
    }
  }

  lemma {:induction false} FieldsAnswerStays(g: Graph, fields: seq<FieldSpec>, others: seq<FieldSpec>, calls: nat, more: nat)
    requires SameFields(g, fields, others, calls).Some? && calls <= more
    ensures SameFields(g, fields, others, more) == SameFields(g, fields, others, calls)
    decreases calls, 1 + |fields|
  {
    if fields != [] && LastType(others, fields[0].name) != null {
      var t := LastType(others, fields[0].name);
      AnswerStays(g, fields[0].typ, t, calls, more);
      if SameShape(g, fields[0].typ, t, calls) == Some(true) {
        FieldsAnswerStays(g, fields[1..], others, calls, more);
      }
    }
  }

  // ---------- how many calls are enough ----------

  /** A set of nodes that is not left by going to children. */
  ghost predicate Inside(g: Graph, nodes: set<TypeSpec>) {
    forall n <- nodes :: n in g && forall c <- Children(g[n]) | c in g :: c in nodes
  }

  ghost predicate KnownIn(g: Graph, nodes: set<TypeSpec>, n: TypeSpec?) {
    n == null || n !in g || n in nodes
  }

  /** The pairs whose comparison returns within k + 1 nested calls. */
  ghost function Returned(g: Graph, nodes: set<TypeSpec>, k: nat): set<(TypeSpec, TypeSpec)> {
    set a <- nodes, b <- nodes | SameShape(g, a, b, k + 1).Some? :: (a, b)
  }

  lemma FieldsKnown(g: Graph, nodes: set<TypeSpec>, n: TypeSpec)
    requires Inside(g, nodes) && n in nodes && g[n].kind == KindStruct
    ensures forall f <- g[n].fields :: KnownIn(g, nodes, f.typ)
  {
    forall f <- g[n].fields
      ensures KnownIn(g, nodes, f.typ)
    {
      var i :| 0 <= i < |g[n].fields| && g[n].fields[i] == f;
      assert f.typ == Children(g[n])[i];
    }
  }

  lemma ReturnedEarlier(g: Graph, nodes: set<TypeSpec>, a: TypeSpec?, b: TypeSpec?, k: nat)
    requires Returned(g, nodes, k) == Returned(g, nodes, k + 1) && KnownIn(g, nodes, a) && KnownIn(g, nodes, b)
    requires SameShape(g, a, b, k + 2).Some?
    ensures SameShape(g, a, b, k + 1) == SameShape(g, a, b, k + 2)
  {
    if a != null && b != null && a in g && b in g {
      assert (a, b) in Returned(g, nodes, k + 1);
      AnswerStays(g, a, b, k + 1, k + 2);
    }
  }

  lemma {:induction false} FieldsReturnedEarlier(g: Graph, nodes: set<TypeSpec>, fields: seq<FieldSpec>, others: seq<FieldSpec>, k: nat)
    requires Returned(g, nodes, k) == Returned(g, nodes, k + 1)
    requires (forall f <- fields :: KnownIn(g, nodes, f.typ)) && forall f <- others :: KnownIn(g, nodes, f.typ)
    requires SameFields(g, fields, others, k + 2).Some?
    ensures SameFields(g, fields, others, k + 1).Some?
    decreases |fields|
  {
    if fields != [] {
      var t := LastType(others, fields[0].name);
      if t != null {
        assert FieldSpec(fields[0].name, t) in others;
        ReturnedEarlier(g, nodes, fields[0].typ, t, k);
        if SameShape(g, fields[0].typ, t, k + 2) == Some(true) {
          FieldsReturnedEarlier(g, nodes, fields[1..], others, k);
        }
      }
    }
  }

  lemma ReturnsOneEarlier(g: Graph, nodes: set<TypeSpec>, a: TypeSpec, b: TypeSpec, k: nat)
    requires Inside(g, nodes) && Returned(g, nodes, k) == Returned(g, nodes, k + 1) && a in nodes && b in nodes
    requires SameShape(g, a, b, k + 3).Some?
    ensures SameShape(g, a, b, k + 2).Some?
  {
    if g[a].kind == g[b].kind == KindSlice && g[a].element != null && g[b].element != null {
      assert g[a].element in Children(g[a]) && g[b].element in Children(g[b]);
      ReturnedEarlier(g, nodes, g[a].element, g[b].element, k);
    } else if g[a].kind == g[b].kind == KindStruct && |g[a].fields| == |g[b].fields| {
      FieldsKnown(g, nodes, a);
      FieldsKnown(g, nodes, b);
      FieldsReturnedEarlier(g, nodes, g[a].fields, g[b].fields, k);
    }
  }

  lemma ReturnedGrows(g: Graph, nodes: set<TypeSpec>, k: nat)
    requires Inside(g, nodes)
    ensures Returned(g, nodes, k) <= Returned(g, nodes, k + 1) <= Pairs(nodes, nodes)
    ensures Returned(g, nodes, k) == Returned(g, nodes, k + 1) ==> Returned(g, nodes, k + 2) <= Returned(g, nodes, k + 1)
  {
    forall a <- nodes, b <- nodes | SameShape(g, a, b, k + 1).Some?
      ensures SameShape(g, a, b, k + 2).Some?
    {
      AnswerStays(g, a, b, k + 1, k + 2);
    }
    if Returned(g, nodes, k) == Returned(g, nodes, k + 1) {
      forall a <- nodes, b <- nodes | SameShape(g, a, b, k + 3).Some?
        ensures SameShape(g, a, b, k + 2).Some?
      {
        ReturnsOneEarlier(g, nodes, a, b, k);
      }
    }
  }

  /** If one more call brings no new answer, no number of calls does; so there are all answers after
      as many as there are pairs. */
  lemma ReturnsWithin(g: Graph, nodes: set<TypeSpec>, a: TypeSpec, b: TypeSpec, calls: nat)
    requires Inside(g, nodes) && a in nodes && b in nodes && SameShape(g, a, b, calls).Some?
    ensures SameShape(g, a, b, |nodes| * |nodes| + 1) == SameShape(g, a, b, calls)
  {
    var s := (k: nat) => Returned(g, nodes, k);
    var all := Pairs(nodes, nodes);
    forall k: nat
      ensures GrowsAt(s, all, k)
    {
      ReturnedGrows(g, nodes, k);
      ReturnedGrows(g, nodes, k + 1);
    }
    Settled(s, all, calls - 1);
    PairsSize(nodes, nodes);
    assert (a, b) in s(calls - 1);
    assert (a, b) in s(|all|);
    SameAnswer(g, a, b, calls, |all| + 1);
  }

  lemma SameAnswer(g: Graph, a: TypeSpec?, b: TypeSpec?, calls: nat, more: nat)
    requires SameShape(g, a, b, calls).Some? && SameShape(g, a, b, more).Some?
    ensures SameShape(g, a, b, calls) == SameShape(g, a, b, more)
  {
    if calls <= more {
      AnswerStays(g, a, b, calls, more);
    } else {
      AnswerStays(g, a, b, more, calls);
    }
  }

  ghost function Enough(g: Graph): nat {
    |g.Keys| * |g.Keys| + 1
  }

  /** What sameShape returns, None if it never does. */
  ghost function Compared(g: Graph, a: TypeSpec?, b: TypeSpec?): Option<bool> {
    SameShape(g, a, b, Enough(g))
  }

  lemma ComparedAnswer(g: Graph, a: TypeSpec?, b: TypeSpec?, calls: nat)
    requires SameShape(g, a, b, calls).Some?
    ensures Compared(g, a, b) == SameShape(g, a, b, calls)
  {
    if a != null && a in g && b != null && b in g {
      ReturnsWithin(g, g.Keys, a, b, calls);
    }
  }

  /** Exactly when a comparison returns, and with which answer: it does so for some number of nested
      calls iff it does within one more than there are pairs of nodes. */
  lemma ReturnsExactly(g: Graph, a: TypeSpec?, b: TypeSpec?)
    ensures (exists calls: nat :: SameShape(g, a, b, calls).Some?) <==> Compared(g, a, b).Some?
    ensures forall calls: nat | SameShape(g, a, b, calls).Some? :: SameShape(g, a, b, calls) == Compared(g, a, b)
  {
    forall calls: nat | SameShape(g, a, b, calls).Some?
      ensures SameShape(g, a, b, calls) == Compared(g, a, b)
    {
      ComparedAnswer(g, a, b, calls);
    }
    var enough: nat := Enough(g);
    assert Compared(g, a, b) == SameShape(g, a, b, enough);
    if calls: nat :| SameShape(g, a, b, calls).Some? {
      ComparedAnswer(g, a, b, calls);
    }
  }

  lemma {:induction false} FieldsReturnWithin(g: Graph, nodes: set<TypeSpec>, fields: seq<FieldSpec>, others: seq<FieldSpec>, calls: nat)
    requires Inside(g, nodes) && |nodes| * |nodes| < calls
    requires (forall f <- fields :: f.typ in nodes) && forall f <- others :: f.typ in nodes
    ensures SameFields(g, fields, others, calls) == SameFields(g, fields, others, Enough(g))
    decreases |fields|
  {
    if fields != [] {
      var t := LastType(others, fields[0].name);
      if t != null {
        assert FieldSpec(fields[0].name, t) in others;
        EnoughCalls(g, nodes, fields[0].typ, t, calls);
        FieldsReturnWithin(g, nodes, fields[1..], others, calls);
      }
    }
  }

  /** For nodes of such a set as many calls suffice. */
  lemma EnoughCalls(g: Graph, nodes: set<TypeSpec>, a: TypeSpec, b: TypeSpec, calls: nat)
    requires Inside(g, nodes) && a in nodes && b in nodes && |nodes| * |nodes| < calls
    ensures SameShape(g, a, b, calls) == Compared(g, a, b)
  {
    if SameShape(g, a, b, calls).Some? {
      ComparedAnswer(g, a, b, calls);
    } else if Compared(g, a, b).Some? {
      ReturnsWithin(g, nodes, a, b, Enough(g));
      AnswerStays(g, a, b, |nodes| * |nodes| + 1, calls);
    }
  }

  lemma {:induction false} LastTypeRepresents(g: Graph, fields: seq<FieldSpec>, shapes: seq<Shapes.Field>, name: string)
    requires |fields| == |shapes|
    requires forall i :: 0 <= i < |fields| ==>
               fields[i].name == shapes[i].name && Represents(g, fields[i].typ, shapes[i].shape)
    ensures var t, s := LastType(fields, name), S.LastNamed(shapes, name);
            if s.None? then t == null else t != null && Represents(g, t, s.value)
  {
    if fields != [] {
      var k := |fields| - 1;
      LastTypeRepresents(g, fields[..k], shapes[..k], name);
    }
  }

  /** On finite types the recursion ends within their depth, with the answer of module SameShapes. */
  lemma {:induction false} SameShapeOnTrees(g: Graph, a: TypeSpec, b: TypeSpec, sa: Shapes.Shape, sb: Shapes.Shape, calls: nat)
    requires Represents(g, a, sa) && Represents(g, b, sb) && calls > Merge.Depth(sa)
    ensures SameShape(g, a, b, calls) == Some(S.SameShape(sa, sb))
    decreases calls, 1
  {
    if sa.Slice? && sb.Slice? {
      if sa.element.Some? && sb.element.Some? {
        SameShapeOnTrees(g, g[a].element, g[b].element, sa.element.value, sb.element.value, calls - 1);
      }
    } else if sa.Struct? && sb.Struct? {
      SameStructOnTrees(g, a, b, sa.fields, sb.fields, calls);
    }
  }

  lemma {:induction false} SameStructOnTrees(g: Graph, a: TypeSpec, b: TypeSpec, fs: seq<Shapes.Field>, os: seq<Shapes.Field>, calls: nat)
    requires Represents(g, a, Shapes.Struct(fs)) && Represents(g, b, Shapes.Struct(os)) && calls > Merge.Depth(Shapes.Struct(fs))
    ensures SameShape(g, a, b, calls) == Some(S.SameShape(Shapes.Struct(fs), Shapes.Struct(os)))
    decreases calls, 0
  {
    var fields, others := g[a].fields, g[b].fields;
    assert SameShape(g, a, b, calls) == if |fs| != |os| then Some(false) else SameFields(g, fields, others, calls - 1);
    if |fs| == |os| {
      SameFieldsOnTrees(g, fields, others, fs, os, calls - 1);
    }
  }

  lemma {:induction false} SameFieldsOnTrees(g: Graph, fields: seq<FieldSpec>, others: seq<FieldSpec>,
                                             fs: seq<Shapes.Field>, os: seq<Shapes.Field>, calls: nat)
    requires |fields| == |fs| && |others| == |os| && calls > Merge.FieldsDepth(fs)
    requires forall i :: 0 <= i < |fs| ==> fields[i].name == fs[i].name && Represents(g, fields[i].typ, fs[i].shape)
    requires forall i :: 0 <= i < |os| ==> others[i].name == os[i].name && Represents(g, others[i].typ, os[i].shape)
    ensures SameFields(g, fields, others, calls) == Some(S.IsSubset(fs, os))
    decreases calls, 1 + |fields|
  {
    if fs != [] {
      var name := fs[0].name;
      assert fs == [fs[0]] + fs[1..] && Merge.Depth(fs[0].shape) <= Merge.FieldsDepth(fs);
      LastTypeRepresents(g, others, os, name);
      var s := S.LastNamed(os, name);
      if s.Some? {
        SameShapeOnTrees(g, fields[0].typ, LastType(others, name), fs[0].shape, s.value, calls);
      }
      SameFieldsOnTrees(g, fields[1..], others, fs[1..], os, calls);
      assert S.IsSubset(fs, os) <==> S.Matched(fs[0], os) && S.IsSubset(fs[1..], os);
    }
  }

  lemma {:induction false} ReturnsIfLeftFinite(g: Graph, a: TypeSpec, b: TypeSpec?, s: Shapes.Shape, calls: nat)
    requires Represents(g, a, s) && calls > Merge.Depth(s)
    ensures SameShape(g, a, b, calls).Some?
    decreases calls, 0
  {
    if b != null && b in g && g[a].kind == g[b].kind {
      if s.Slice? && s.element.Some? && g[b].element != null {
        ReturnsIfLeftFinite(g, g[a].element, g[b].element, s.element.value, calls - 1);
      } else if s.Struct? && |g[a].fields| == |g[b].fields| {
        LeftFieldsReturn(g, g[a].fields, g[b].fields, s.fields, calls - 1);
      }
    }
  }

  lemma {:induction false} LeftFieldsReturn(g: Graph, fields: seq<FieldSpec>, others: seq<FieldSpec>,
                                            fs: seq<Shapes.Field>, calls: nat)
    requires |fields| == |fs| && calls > Merge.FieldsDepth(fs)
    requires forall i :: 0 <= i < |fs| ==> Represents(g, fields[i].typ, fs[i].shape)
    ensures SameFields(g, fields, others, calls).Some?
    decreases calls, 1 + |fields|
  {
    if fs != [] {
      assert fs == [fs[0]] + fs[1..] && Merge.Depth(fs[0].shape) <= Merge.FieldsDepth(fs);
      ReturnsIfLeftFinite(g, fields[0].typ, LastType(others, fields[0].name), fs[0].shape, calls);
      LeftFieldsReturn(g, fields[1..], others, fs[1..], calls);
    }
  }

  lemma {:induction false} ReturnsIfRightFinite(g: Graph, a: TypeSpec?, b: TypeSpec, s: Shapes.Shape, calls: nat)
    requires Represents(g, b, s) && calls > Merge.Depth(s)
    ensures SameShape(g, a, b, calls).Some?
    decreases calls, 1
  {
    if a != null && a in g && g[a].kind == g[b].kind {
      match s
      case Slice(Some(e)) =>
        if g[a].element != null {
          ReturnsIfRightFinite(g, g[a].element, g[b].element, e, calls - 1);
        }
      case Struct(os) => ReturnsIfRightStruct(g, a, b, os, calls);
      case _ =>
    }
  }

  lemma {:induction false} ReturnsIfRightStruct(g: Graph, a: TypeSpec, b: TypeSpec, os: seq<Shapes.Field>, calls: nat)
    requires Represents(g, b, Shapes.Struct(os)) && calls > Merge.Depth(Shapes.Struct(os)) && a in g && g[a].kind == KindStruct
    ensures SameShape(g, a, b, calls).Some?
    decreases calls, 0
  {
    if |g[a].fields| == |os| {
      RightFieldsReturn(g, g[a].fields, g[b].fields, os, calls - 1);
    }
  }

  lemma {:induction false} RightFieldsReturn(g: Graph, fields: seq<FieldSpec>, others: seq<FieldSpec>,
                                             os: seq<Shapes.Field>, calls: nat)
    requires |others| == |os| && calls > Merge.FieldsDepth(os)
    requires forall i :: 0 <= i < |os| ==> others[i].name == os[i].name && Represents(g, others[i].typ, os[i].shape)
    ensures SameFields(g, fields, others, calls).Some?
    decreases calls, 1 + |fields|
  {
    if fields != [] {
      var name := fields[0].name;
      LastTypeRepresents(g, others, os, name);
      var s := S.LastNamed(os, name);
      if s.Some? {
        assert Shapes.Field(name, s.value) in os;
        ReturnsIfRightFinite(g, fields[0].typ, LastType(others, name), s.value, calls);
      }
      RightFieldsReturn(g, fields[1..], others, os, calls);
    }
  }

  /** It returns as soon as one of the two sides is a finite type, cycles on the other or not. */
  lemma ReturnsIfFinite(g: Graph, a: TypeSpec, b: TypeSpec, s: Shapes.Shape)
    requires Represents(g, a, s) || Represents(g, b, s)
    ensures SameShape(g, a, b, Merge.Depth(s) + 1).Some?
  {
    if Represents(g, a, s) {
      ReturnsIfLeftFinite(g, a, b, s, Merge.Depth(s) + 1);
    } else {
      ReturnsIfRightFinite(g, a, b, s, Merge.Depth(s) + 1);
    }
  }

  lemma LastTypeDistinct(fields: seq<FieldSpec>, i: nat)
    requires i < |fields| && DistinctFields(fields)
    ensures LastType(fields, fields[i].name) == fields[i].typ
  {
    LastTypeExactly(fields, i);
  }

  ghost predicate Finite(g: Graph, n: TypeSpec) {
    exists s :: Represents(g, n, s)
  }

  /** A comparison of a node with itself that returns has been through all that is below it. */
  lemma {:induction false} ReturnedIsFinite(g: Graph, n: TypeSpec, calls: nat) returns (s: Shapes.Shape)
    requires Closed(g) && AllDistinct(g) && n in g && SameShape(g, n, n, calls).Some?
    requires forall m <- g :: g[m].kind != KindNull
    ensures Represents(g, n, s) && SameShape(g, n, n, calls) == Some(true)
    decreases calls, 0
  {
    match g[n].kind
    case KindScalar => s := Shapes.Scalar(g[n].scalar);
    case KindSlice =>
      if g[n].element == null {
        s := Shapes.Slice(None);
      } else {
        assert g[n].element in Children(g[n]);
        var e := ReturnedIsFinite(g, g[n].element, calls - 1);
        s := Shapes.Slice(Some(e));
      }
    case KindStruct =>
      FieldTypesInside(g, n);
      assert g[n].fields[0..] == g[n].fields;
      var fields := ReturnedFields(g, n, 0, calls - 1);
      s := Shapes.Struct(fields);
  }

  lemma {:induction false} ReturnedFields(g: Graph, n: TypeSpec, i: nat, calls: nat) returns (shapes: seq<Shapes.Field>)
    requires Closed(g) && AllDistinct(g) && n in g && g[n].kind == KindStruct && i <= |g[n].fields|
    requires forall m <- g :: g[m].kind != KindNull
    requires SameFields(g, g[n].fields[i..], g[n].fields, calls).Some?
    ensures |shapes| == |g[n].fields| - i
    ensures forall j :: 0 <= j < |shapes| ==>
              g[n].fields[i + j].name == shapes[j].name && Represents(g, g[n].fields[i + j].typ, shapes[j].shape)
    ensures SameFields(g, g[n].fields[i..], g[n].fields, calls) == Some(true)
    decreases calls, 1 + |g[n].fields| - i
  {
    var fields := g[n].fields;
    if i == |fields| {
      shapes := [];
    } else {
      LastTypeDistinct(fields, i);
      FieldTypesInside(g, n);
      assert fields[i..][0] == fields[i] && fields[i..][1..] == fields[i + 1..];
      var s := ReturnedIsFinite(g, fields[i].typ, calls);
      var rest := ReturnedFields(g, n, i + 1, calls);
      shapes := [Shapes.Field(fields[i].name, s)] + rest;
    }
  }

  /** Comparing a node with itself returns exactly when the type below it is finite. */
  lemma ReturnsOnItselfExactly(g: Graph, n: TypeSpec)
    requires Closed(g) && AllDistinct(g) && n in g
    requires forall m <- g :: g[m].kind != KindNull
    ensures (exists calls: nat :: SameShape(g, n, n, calls).Some?) <==> Finite(g, n)
  {
    if calls: nat :| SameShape(g, n, n, calls).Some? {
      var s := ReturnedIsFinite(g, n, calls);
    }
    if s :| Represents(g, n, s) {
      ReturnsIfFinite(g, n, n, s);
    }
  }

  /** A struct whose field i is a slice of the struct itself, after fields that are scalars. */
  ghost predicate SelfRecursive(g: Graph, n: TypeSpec, i: nat) {
    && n in g && g[n].kind == KindStruct && i < |g[n].fields| && DistinctFields(g[n].fields)
    && (forall j :: 0 <= j < i ==> g[n].fields[j].typ in g && g[g[n].fields[j].typ].kind == KindScalar)
    && g[n].fields[i].typ in g
    && g[g[n].fields[i].typ].kind == KindSlice && g[g[n].fields[i].typ].element == n
  }

  /** Comparing such a struct with itself never returns, however many calls are allowed. */
  lemma {:induction false} NeverReturns(g: Graph, n: TypeSpec, i: nat, calls: nat)
    requires SelfRecursive(g, n, i)
    ensures SameShape(g, n, n, calls) == None
    decreases calls, 1
  {
    if calls > 0 {
      FieldsNeverReturn(g, n, i, 0, calls - 1);
    }
  }

  lemma {:induction false} FieldsNeverReturn(g: Graph, n: TypeSpec, i: nat, j: nat, calls: nat)
    requires SelfRecursive(g, n, i) && j <= i
    ensures SameFields(g, g[n].fields[j..], g[n].fields, calls) == None
    decreases calls, 2 + i - j
  {
    var fields := g[n].fields;
    LastTypeDistinct(fields, j);
    assert fields[j..][0] == fields[j] && fields[j..][1..] == fields[j + 1..];
    if calls > 0 {
      if j < i {
        FieldsNeverReturn(g, n, i, j + 1, calls);
      } else {
        NeverReturns(g, n, i, calls - 1);
      }
    }
  }

  // ---------- what a yes means for documents ----------

  /** Every document the first node admits, the second admits as well. */
  ghost predicate Covers(g: Graph, a: TypeSpec, b: TypeSpec)
    requires Closed(g) && a in g && b in g
  {
    forall d: Shapes.Doc :: Admits(g, a, d) ==> Admits(g, b, d)
  }

  /** Where sameShape compares the two, b has an element-less slice opposite a known element of a. */
  ghost predicate Loses(g: Graph, a: TypeSpec, b: TypeSpec, calls: nat)
    decreases calls, 0
  {
    && calls > 0 && a in g && b in g && g[a].kind == g[b].kind
    && match g[a].kind
       case KindSlice =>
         g[a].element != null && (g[b].element == null || Loses(g, g[a].element, g[b].element, calls - 1))
       case KindStruct => exists f <- g[a].fields :: FieldLoses(g, f, g[b].fields, calls - 1)
       case _ => false
  }

  ghost predicate FieldLoses(g: Graph, f: FieldSpec, others: seq<FieldSpec>, calls: nat)
    decreases calls, 1
  {
    var t := LastType(others, f.name);
    t != null && Loses(g, f.typ, t, calls)
  }

  lemma {:induction false} SameFieldsExact(g: Graph, fields: seq<FieldSpec>, others: seq<FieldSpec>, calls: nat)
    ensures SameFields(g, fields, others, calls) == Some(true) <==>
            forall f <- fields :: LastType(others, f.name) != null && SameShape(g, f.typ, LastType(others, f.name), calls) == Some(true)
    decreases |fields|
  {
    if fields != [] {
      assert fields == [fields[0]] + fields[1..];
      SameFieldsExact(g, fields[1..], others, calls);
    }
  }

  /** Where nothing is lost, a yes is right about every document, whether or not the types are cyclic. */
  lemma {:induction false} SameAdmits(g: Graph, a: TypeSpec, b: TypeSpec, calls: nat, d: Shapes.Doc)
    requires Closed(g) && a in g && b in g
    requires SameShape(g, a, b, calls) == Some(true) && !Loses(g, a, b, calls)
    requires Admits(g, a, d)
    ensures Admits(g, b, d)
    decreases d
  {
    match d
    case SequenceDoc(items) =>
      if g[b].element != null {
        assert g[b].element in Children(g[b]);
        if g[a].element != null {
          forall i <- items
            ensures Admits(g, g[b].element, i)
          {
            SameAdmits(g, g[a].element, g[b].element, calls - 1, i);
          }
        }
      }
    case MappingDoc(entries) =>
      forall e <- entries
        ensures AdmitsEntry(g, g[b].fields, e)
      {
        assert AdmitsEntry(g, g[a].fields, e);
        SameAdmitsEntry(g, g[a].fields, g[b].fields, calls - 1, e);
      }
    case _ =>
  }

  lemma {:induction false} SameAdmitsEntry(g: Graph, fields: seq<FieldSpec>, others: seq<FieldSpec>, calls: nat, e: Shapes.Entry)
    requires Closed(g) && forall f <- others :: f.typ in g
    requires SameFields(g, fields, others, calls) == Some(true)
    requires forall f <- fields :: !FieldLoses(g, f, others, calls)
    requires AdmitsEntry(g, fields, e)
    ensures AdmitsEntry(g, others, e)
    decreases e
  {
    var f :| f in fields && f.name == e.key.name && f.typ in g && Admits(g, f.typ, e.value);
    SameFieldsExact(g, fields, others, calls);
    var t := LastType(others, f.name);
    SameAdmits(g, f.typ, t, calls, e.value);
    assert FieldSpec(f.name, t) in others;
  }

  /** Where something can be lost, there is a document that is. */
  lemma {:induction false} LostDocument(g: Graph, a: TypeSpec, b: TypeSpec, calls: nat) returns (d: Shapes.Doc)
    requires Closed(g) && AllDistinct(g) && a in g && b in g && Loses(g, a, b, calls)
    ensures Admits(g, a, d) && !Admits(g, b, d)
    decreases calls
  {
    match g[a].kind
    case KindSlice =>
      assert g[a].element in Children(g[a]);
      var item := Shapes.NullDoc;
      if g[b].element != null {
        assert g[b].element in Children(g[b]);
        item := LostDocument(g, g[a].element, g[b].element, calls - 1);
      }
      d := Shapes.SequenceDoc([item]);
      assert item in [item];
    case KindStruct =>
      var f :| f in g[a].fields && FieldLoses(g, f, g[b].fields, calls - 1);
      FieldTypesInside(g, a);
      FieldTypesInside(g, b);
      var value := LostDocument(g, f.typ, LastType(g[b].fields, f.name), calls - 1);
      d := LostEntry(g, a, b, f, value);
  }

  lemma LostEntry(g: Graph, a: TypeSpec, b: TypeSpec, f: FieldSpec, value: Shapes.Doc) returns (d: Shapes.Doc)
    requires Closed(g) && AllDistinct(g) && a in g && b in g && g[a].kind == KindStruct && g[b].kind == KindStruct
    requires f in g[a].fields && f.typ in g && Admits(g, f.typ, value)
    requires var t := LastType(g[b].fields, f.name); t != null && t in g && !Admits(g, t, value)
    ensures Admits(g, a, d) && !Admits(g, b, d)
  {
    var e := Shapes.Entry(Shapes.StringKey(f.name), value);
    d := Shapes.MappingDoc([e]);
    assert AdmitsEntry(g, g[a].fields, e);
    forall other <- g[b].fields | other.name == f.name
      ensures other.typ == LastType(g[b].fields, f.name)
    {
      var i :| 0 <= i < |g[b].fields| && g[b].fields[i] == other;
      LastTypeDistinct(g[b].fields, i);
    }
    assert !AdmitsEntry(g, g[b].fields, e) && e in [e];
  }

  /** A yes of sameShape is right about all documents exactly when b has no element-less slice
      opposite a known element of a. */
  lemma CoversExactly(g: Graph, a: TypeSpec, b: TypeSpec, calls: nat)
    requires Closed(g) && AllDistinct(g) && a in g && b in g && SameShape(g, a, b, calls) == Some(true)
    ensures Covers(g, a, b) <==> !Loses(g, a, b, calls)
  {
    if Loses(g, a, b, calls) {
      var d := LostDocument(g, a, b, calls);
    } else {
      forall d: Shapes.Doc | Admits(g, a, d)
        ensures Admits(g, b, d)
      {
        SameAdmits(g, a, b, calls, d);
      }
    }
  }

  /** Every slice knows its element. */
  ghost predicate AllKnown(g: Graph) {
    forall n <- g | g[n].kind == KindSlice :: g[n].element != null
  }

  lemma {:induction false} KnownLosesNothing(g: Graph, a: TypeSpec, b: TypeSpec, calls: nat)
    requires AllKnown(g)
    ensures !Loses(g, a, b, calls)
    decreases calls
  {
    if calls > 0 && a in g && b in g && g[a].kind == g[b].kind {
      if g[a].kind == KindSlice {
        KnownLosesNothing(g, g[a].element, g[b].element, calls - 1);
      } else if g[a].kind == KindStruct {
        forall f <- g[a].fields
          ensures !FieldLoses(g, f, g[b].fields, calls - 1)
        {
          var t := LastType(g[b].fields, f.name);
          if t != null {
            KnownLosesNothing(g, f.typ, t, calls - 1);
          }
        }
      }
    }
  }
}
