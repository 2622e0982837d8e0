/** mergeShapes and its helpers as functions, and the theorem that they compute a least
    upper bound of the order of module Shapes. */
module Merge {
  import opened Wrappers
  import opened Shapes

  datatype MergeError =
    | MixedKinds
    | MixedScalars(base: string, other: string)
    | InField(name: string, cause: MergeError)

  // ---------- termination measures ----------

  function Max(a: nat, b: nat): nat {
    if a < b then b else a
  }

  function Depth(s: Shape): nat
    decreases s
  {
    match s
    case Null => 0
    case Scalar(_) => 0
    case Slice(None) => 1
    case Slice(Some(e)) => 1 + Depth(e)
    case Struct(fields) => 1 + FieldsDepth(fields)
  }

  function FieldsDepth(fields: seq<Field>): (r: nat)
    ensures forall f <- fields :: Depth(f.shape) <= r
    decreases fields
  {
    if fields == [] then 0 else
      assert forall f <- fields :: f == fields[0] || f in fields[1..];
      Max(Depth(fields[0].shape), FieldsDepth(fields[1..]))
  }

  function MaxDepth(shapes: seq<Shape>): (r: nat)
    ensures forall s <- shapes :: Depth(s) <= r
  {
    if shapes == [] then 0 else
      assert forall s <- shapes :: s == shapes[0] || s in shapes[1..];
      Max(Depth(shapes[0]), MaxDepth(shapes[1..]))
  }

  lemma {:induction false} MaxDepthLeast(shapes: seq<Shape>, k: nat)
    requires forall s <- shapes :: Depth(s) <= k
    ensures MaxDepth(shapes) <= k
  {
    if shapes != [] {
      MaxDepthLeast(shapes[1..], k);
    }
  }

  lemma {:induction false} FieldsDepthLeast(fields: seq<Field>, k: nat)
    requires forall f <- fields :: Depth(f.shape) <= k
    ensures FieldsDepth(fields) <= k
  {
    if fields != [] {
      FieldsDepthLeast(fields[1..], k);
    }
  }

  // ---------- the pieces the merge is made of ----------

  /** Last element off, so that a loop extends its argument by one element at a time. */
  function FilterNonNull(shapes: seq<Shape>): (r: seq<Shape>)
    ensures forall s <- r :: !s.Null?
  {
    if shapes == [] then [] else
      var n := |shapes| - 1;
      FilterNonNull(shapes[..n]) + (if shapes[n].Null? then [] else [shapes[n]])
  }

  function AllFields(structs: seq<Shape>): seq<Field>
    requires forall s <- structs :: s.Struct?
  {
    if structs == [] then [] else
      var n := |structs| - 1;
      AllFields(structs[..n]) + structs[n].fields
  }

  /** Distinct field names in order of first appearance. */
  function Names(fields: seq<Field>): seq<string> {
    if fields == [] then [] else
      var k := |fields| - 1;
      var init := Names(fields[..k]);
      if fields[k].name in init then init else init + [fields[k].name]
  }

  /** The types the fields of one name have, in order. */
  function Group(fields: seq<Field>, name: string): seq<Shape> {
    if fields == [] then [] else
      var k := |fields| - 1;
      Group(fields[..k], name) + (if fields[k].name == name then [fields[k].shape] else [])
  }

  function Elements(slices: seq<Shape>): seq<Shape>
    requires forall s <- slices :: s.Slice?
  {
    if slices == [] then [] else
      var n := |slices| - 1;
      Elements(slices[..n]) + (if slices[n].element.Some? then [slices[n].element.value] else [])
  }

  lemma {:induction false} FilterMembers(shapes: seq<Shape>)
    ensures forall s :: s in FilterNonNull(shapes) <==> s in shapes && !s.Null?
  {
    if shapes != [] {
      var n := |shapes| - 1;
      assert shapes == shapes[..n] + [shapes[n]];
      FilterMembers(shapes[..n]);
    }
  }

  lemma {:induction false} AllFieldsMembers(structs: seq<Shape>)
    requires forall s <- structs :: s.Struct?
    ensures forall f :: f in AllFields(structs) <==> exists s <- structs :: f in s.fields
  {
    if structs != [] {
      var n := |structs| - 1;
      assert structs == structs[..n] + [structs[n]];
      AllFieldsMembers(structs[..n]);
    }
  }

  ghost predicate Occurs(fields: seq<Field>, name: string) {
    exists f <- fields :: f.name == name
  }

  lemma {:induction false} NamesMembers(fields: seq<Field>)
    ensures forall n :: n in Names(fields) <==> Occurs(fields, n)
    ensures forall i, j :: 0 <= i < j < |Names(fields)| ==> Names(fields)[i] != Names(fields)[j]
  {
    if fields != [] {
      var k := |fields| - 1;
      assert fields == fields[..k] + [fields[k]];
      NamesMembers(fields[..k]);
    }
  }

  lemma {:induction false} GroupMembers(fields: seq<Field>, name: string)
    ensures forall s :: s in Group(fields, name) <==> Field(name, s) in fields
  {
    if fields != [] {
      var k := |fields| - 1;
      assert fields == fields[..k] + [fields[k]];
      GroupMembers(fields[..k], name);
    }
  }

  lemma {:induction false} GroupOfAbsent(fields: seq<Field>, name: string)
    requires name !in Names(fields)
    ensures Group(fields, name) == []
  {
    if fields != [] {
      GroupOfAbsent(fields[..|fields| - 1], name);
    }
  }

  lemma {:induction false} ElementsMembers(slices: seq<Shape>)
    requires forall s <- slices :: s.Slice?
    ensures forall e :: e in Elements(slices) <==> Slice(Some(e)) in slices
  {
    if slices != [] {
      var n := |slices| - 1;
      ElementsMembers(slices[..n]);
      forall e
        ensures e in Elements(slices) <==> Slice(Some(e)) in slices
      {
        assert slices == slices[..n] + [slices[n]];
        assert slices[n] in slices && slices[n] == Slice(slices[n].element);
      }
    }
  }

  predicate SameKind(a: Shape, b: Shape) {
    a.Null? == b.Null? && a.Scalar? == b.Scalar? && a.Slice? == b.Slice? && a.Struct? == b.Struct?
  }

  lemma GroupDepth(fields: seq<Field>, name: string)
    ensures MaxDepth(Group(fields, name)) <= FieldsDepth(fields)
  {
    GroupMembers(fields, name);
    forall s <- Group(fields, name)
      ensures Depth(s) <= FieldsDepth(fields)
    {
      assert Field(name, s) in fields;
    }
    MaxDepthLeast(Group(fields, name), FieldsDepth(fields));
  }

  lemma AllFieldsDepth(structs: seq<Shape>)
    requires structs != [] && forall s <- structs :: s.Struct?
    ensures FieldsDepth(AllFields(structs)) < MaxDepth(structs)
  {
    AllFieldsMembers(structs);
    assert structs[0] in structs && Depth(structs[0]) >= 1;
    forall f <- AllFields(structs)
      ensures Depth(f.shape) <= MaxDepth(structs) - 1
    {
      var s :| s in structs && f in s.fields;
      assert Depth(s) <= MaxDepth(structs);
    }
    FieldsDepthLeast(AllFields(structs), MaxDepth(structs) - 1);
  }

  lemma ElementsDepth(slices: seq<Shape>)
    requires slices != [] && forall s <- slices :: s.Slice?
    ensures MaxDepth(Elements(slices)) < MaxDepth(slices)
  {
    ElementsMembers(slices);
    assert slices[0] in slices && Depth(slices[0]) >= 1;
    forall e <- Elements(slices)
      ensures Depth(e) <= MaxDepth(slices) - 1
    {
      assert Depth(Slice(Some(e))) <= MaxDepth(slices);
    }
    MaxDepthLeast(Elements(slices), MaxDepth(slices) - 1);
  }

  lemma FilterDepth(shapes: seq<Shape>)
    ensures MaxDepth(FilterNonNull(shapes)) <= MaxDepth(shapes)
  {
    FilterMembers(shapes);
    MaxDepthLeast(FilterNonNull(shapes), MaxDepth(shapes));
  }

  // ---------- the merge ----------

  function MergeShapes(shapes: seq<Shape>): Result<Shape, MergeError>
    decreases MaxDepth(shapes), 3, 0
  {
    var nonNull := FilterNonNull(shapes);
    FilterDepth(shapes);
    if nonNull == [] then Success(Null)
    else if exists s <- nonNull :: !SameKind(s, nonNull[0]) then Failure(MixedKinds)
    else MergeByKind(nonNull)
  }

  /** The first scalar name that differs from base, if any. */
  function FirstMismatch(scalars: seq<Shape>, base: string): (r: Option<string>)
    requires forall s <- scalars :: s.Scalar?
    ensures r.None? <==> forall s <- scalars :: s.scalar == base
  {
    if scalars == [] then None
    else if scalars[0].scalar != base then Some(scalars[0].scalar)
    else
      assert forall s <- scalars :: s == scalars[0] || s in scalars[1..];
      FirstMismatch(scalars[1..], base)
  }

  ghost predicate OneKind(shapes: seq<Shape>) {
    shapes != [] && forall s <- shapes :: !s.Null? && SameKind(s, shapes[0])
  }

  function MergeByKind(shapes: seq<Shape>): Result<Shape, MergeError>
    requires OneKind(shapes)
    decreases MaxDepth(shapes), 2, 0
  {
    assert shapes[0] in shapes;
    match shapes[0]
    case Scalar(base) =>
      assert forall s <- shapes[1..] :: s in shapes;
      (match FirstMismatch(shapes[1..], base)
       case Some(other) => Failure(MixedScalars(base, other))
       case None => Success(shapes[0]))
    case Struct(_) => MergeStructFields(shapes)
    case Slice(_) => MergeSliceElements(shapes)
  }

  function MergeStructFields(structs: seq<Shape>): Result<Shape, MergeError>
    requires structs != [] && forall s <- structs :: s.Struct?
    decreases MaxDepth(structs), 1, 0
  {
    AllFieldsDepth(structs);
    var all := AllFields(structs);
    var fields :- MergeGroups(all, Names(all));
    Success(Struct(fields))
  }

  function MergeGroups(all: seq<Field>, names: seq<string>): Result<seq<Field>, MergeError>
    decreases FieldsDepth(all), 4, |names|
  {
    if names == [] then Success([]) else
      var k := |names| - 1;
      var init :- MergeGroups(all, names[..k]);
      GroupDepth(all, names[k]);
      match MergeShapes(Group(all, names[k]))
      case Failure(cause) => Failure(InField(names[k], cause))
      case Success(merged) => Success(init + [Field(names[k], merged)])
  }

  function MergeSliceElements(slices: seq<Shape>): Result<Shape, MergeError>
    requires slices != [] && forall s <- slices :: s.Slice?
    decreases MaxDepth(slices), 1, 0
  {
    var elements := Elements(slices);
    ElementsDepth(slices);
    if elements == [] then Success(Slice(None)) else
      var merged :- MergeShapes(elements);
      Success(Slice(Some(merged)))
  }

  // ---------- the merge has distinct field names, whatever its inputs ----------

  lemma {:induction false} MergeUnique(shapes: seq<Shape>)
    requires MergeShapes(shapes).Success?
    ensures UniqueNames(MergeShapes(shapes).value)
    decreases MaxDepth(shapes), 3, 0
  {
    var nonNull := FilterNonNull(shapes);
    FilterDepth(shapes);
    if nonNull != [] {
      KindUnique(nonNull);
    }
  }

  lemma {:induction false} KindUnique(shapes: seq<Shape>)
    requires OneKind(shapes) && MergeByKind(shapes).Success?
    ensures UniqueNames(MergeByKind(shapes).value)
    decreases MaxDepth(shapes), 2, 0
  {
    match shapes[0]
    case Scalar(_) =>
    case Struct(_) =>
      var all := AllFields(shapes);
      AllFieldsDepth(shapes);
      NamesMembers(all);
      GroupsUnique(all, Names(all));
    case Slice(_) =>
      var elements := Elements(shapes);
      ElementsDepth(shapes);
      if elements != [] {
        MergeUnique(elements);
      }
  }

  lemma {:induction false} GroupsUnique(all: seq<Field>, names: seq<string>)
    requires MergeGroups(all, names).Success?
    requires forall i, j :: 0 <= i < j < |names| ==> names[i] != names[j]
    ensures var fields := MergeGroups(all, names).value;
            && |fields| == |names|
            && (forall i :: 0 <= i < |names| ==> fields[i].name == names[i])
            && UniqueFields(fields)
    decreases FieldsDepth(all), 4, |names|
  {
    if names != [] {
      var k := |names| - 1;
      GroupsUnique(all, names[..k]);
      GroupDepth(all, names[k]);
      MergeUnique(Group(all, names[k]));
    }
  }

  // ---------- field order ----------

  /** Where a name first appears. */
  function FirstIndex(fields: seq<Field>, name: string): (i: nat)
    ensures i <= |fields| && (i < |fields| ==> fields[i].name == name)
    ensures forall j :: 0 <= j < i ==> fields[j].name != name
  {
    if fields == [] || fields[0].name == name then 0 else 1 + FirstIndex(fields[1..], name)
  }

  lemma {:induction false} NamesByAppearance(fields: seq<Field>, i: nat, j: nat)
    requires i < j < |Names(fields)|
    ensures FirstIndex(fields, Names(fields)[i]) < FirstIndex(fields, Names(fields)[j]) < |fields|
  {
    var k := |fields| - 1;
    var init := Names(fields[..k]);
    NamesMembers(fields[..k]);
    assert fields == fields[..k] + [fields[k]];
    forall n
      ensures Occurs(fields[..k], n) ==> FirstIndex(fields, n) == FirstIndex(fields[..k], n) < k
      ensures !Occurs(fields[..k], n) && fields[k].name == n ==> FirstIndex(fields, n) == k
    {
      AppearsInPrefix(fields, k, n);
    }
    assert init[i] in init;
    if j < |init| {
      NamesByAppearance(fields[..k], i, j);
    }
  }

  lemma AppearsInPrefix(fields: seq<Field>, k: nat, name: string)
    requires k <= |fields|
    ensures Occurs(fields[..k], name) ==> FirstIndex(fields, name) == FirstIndex(fields[..k], name) < k
    ensures !Occurs(fields[..k], name) && k < |fields| && fields[k].name == name ==> FirstIndex(fields, name) == k
  {
    var i, p := FirstIndex(fields, name), FirstIndex(fields[..k], name);
    if Occurs(fields[..k], name) {
      var f :| f in fields[..k] && f.name == name;
      var j :| 0 <= j < k && fields[..k][j] == f;
      assert p <= j && i <= j;
      assert fields[p].name == name && fields[..k][i].name == name;
    } else {
      assert forall j :: 0 <= j < k ==> fields[..k][j] in fields[..k] && fields[j].name != name;
    }
  }

  /** The fields of a merged struct stand in the order in which their names first appear. */
  lemma MergedOrder(structs: seq<Shape>)
    requires structs != [] && forall s <- structs :: s.Struct?
    requires MergeStructFields(structs).Success?
    ensures var fields := MergeStructFields(structs).value.fields;
            forall i, j :: 0 <= i < j < |fields| ==>
              FirstIndex(AllFields(structs), fields[i].name) < FirstIndex(AllFields(structs), fields[j].name)
  {
    var all := AllFields(structs);
    NamesMembers(all);
    AllFieldsDepth(structs);
    GroupsUnique(all, Names(all));
    var fields := MergeStructFields(structs).value.fields;
    forall i, j | 0 <= i < j < |fields|
      ensures FirstIndex(all, fields[i].name) < FirstIndex(all, fields[j].name)
    {
      NamesByAppearance(all, i, j);
    }
  }

  // ---------- least upper bound ----------

  /** The types above every input are exactly the types above the merge; when the merge
      fails there are none. */
  lemma {:induction false} MergeBounds(shapes: seq<Shape>, u: Shape)
    requires UniqueNames(u)
    ensures AllBelow(shapes, u) <==>
            MergeShapes(shapes).Success? && Leq(MergeShapes(shapes).value, u)
    decreases MaxDepth(shapes), 3, 0
  {
    var nonNull := FilterNonNull(shapes);
    FilterDepth(shapes);
    FilterMembers(shapes);
    assert AllBelow(shapes, u) <==> AllBelow(nonNull, u);
    if nonNull != [] {
      if s :| s in nonNull && !SameKind(s, nonNull[0]) {
        MixedKindsUnbounded(s, nonNull[0], u);
      } else {
        KindBounds(nonNull, u);
      }
    }
  }

  lemma MixedKindsUnbounded(a: Shape, b: Shape, u: Shape)
    requires !a.Null? && !b.Null? && !SameKind(a, b)
    ensures !(Leq(a, u) && Leq(b, u))
  {
  }

  lemma {:induction false} KindBounds(shapes: seq<Shape>, u: Shape)
    requires OneKind(shapes) && UniqueNames(u)
    ensures AllBelow(shapes, u) <==> MergeByKind(shapes).Success? && Leq(MergeByKind(shapes).value, u)
    decreases MaxDepth(shapes), 2, 0
  {
    assert shapes[0] in shapes;
    match shapes[0]
    case Scalar(base) =>
      assert shapes == [shapes[0]] + shapes[1..];
      if s :| s in shapes && s != shapes[0] {
        assert s in shapes[1..] && s.scalar != base;
        assert !(Leq(s, u) && Leq(shapes[0], u));
      } else {
        assert forall s <- shapes[1..] :: s in shapes;
      }
    case Struct(_) => StructBounds(shapes, u);
    case Slice(_) => SliceBounds(shapes, u);
  }

  lemma {:induction false} StructBounds(structs: seq<Shape>, u: Shape)
    requires structs != [] && forall s <- structs :: s.Struct?
    requires UniqueNames(u)
    ensures AllBelow(structs, u) <==>
            MergeStructFields(structs).Success? && Leq(MergeStructFields(structs).value, u)
    decreases MaxDepth(structs), 1, 0
  {
    var all := AllFields(structs);
    AllFieldsDepth(structs);
    NamesMembers(all);
    assert structs[0] in structs;
    if u.Struct? {
      GroupsBounds(all, Names(all), u.fields);
      AllNamed(all, u.fields);
      AllBelowByField(structs, u);
    } else {
      assert !Leq(structs[0], u);
    }
  }

  ghost predicate AllCovered(fields: seq<Field>, us: seq<Field>) {
    forall f <- fields :: Covered(f, us)
  }

  /** The fields of some names. */
  ghost predicate CoveredNamed(fields: seq<Field>, names: seq<string>, us: seq<Field>) {
    forall f <- fields :: f.name in names ==> Covered(f, us)
  }

  lemma AllNamed(fields: seq<Field>, us: seq<Field>)
    ensures CoveredNamed(fields, Names(fields), us) <==> AllCovered(fields, us)
  {
    NamesMembers(fields);
    forall f <- fields
      ensures f.name in Names(fields)
    {
      assert Occurs(fields, f.name);
    }
  }

  lemma AllBelowByField(structs: seq<Shape>, u: Shape)
    requires forall s <- structs :: s.Struct?
    requires u.Struct?
    ensures AllBelow(structs, u) <==> AllCovered(AllFields(structs), u.fields)
  {
    AllFieldsMembers(structs);
    if AllBelow(structs, u) {
      forall f <- AllFields(structs)
        ensures Covered(f, u.fields)
      {
        var s :| s in structs && f in s.fields;
        assert Leq(s, u);
      }
    }
    if AllCovered(AllFields(structs), u.fields) {
      forall s <- structs
        ensures Leq(s, u)
      {
        assert forall f <- s.fields :: f in AllFields(structs) && Covered(f, u.fields);
      }
    }
  }

  lemma {:induction false} GroupsBounds(all: seq<Field>, names: seq<string>, us: seq<Field>)
    requires UniqueFields(us)
    requires forall n <- names :: Occurs(all, n)
    ensures CoveredNamed(all, names, us) <==>
            MergeGroups(all, names).Success? && AllCovered(MergeGroups(all, names).value, us)
    decreases FieldsDepth(all), 4, |names|
  {
    if names != [] {
      var k := |names| - 1;
      var name := names[k];
      assert names == names[..k] + [name];
      GroupsBounds(all, names[..k], us);
      GroupDepth(all, name);
      GroupBounds(all, name, us);
      if MergeGroups(all, names[..k]).Success? && MergeShapes(Group(all, name)).Success? {
        var init, merged := MergeGroups(all, names[..k]).value, MergeShapes(Group(all, name)).value;
        assert MergeGroups(all, names).value == init + [Field(name, merged)];
      }
    }
  }

  /** One name: its fields are all covered iff their merge exists and is covered. */
  lemma {:induction false} GroupBounds(all: seq<Field>, name: string, us: seq<Field>)
    requires UniqueFields(us)
    requires Occurs(all, name)
    ensures (forall f <- all :: f.name == name ==> Covered(f, us)) <==>
            var m := MergeShapes(Group(all, name));
            m.Success? && Covered(Field(name, m.value), us)
    decreases FieldsDepth(all), 3, 1
  {
    var group := Group(all, name);
    GroupDepth(all, name);
    GroupMembers(all, name);
    assert forall f <- all :: f.name == name ==> f == Field(name, f.shape) && f.shape in group;
    if g :| g in us && g.name == name {
      MergeBounds(group, g.shape);
      assert forall h <- us :: h.name == name ==> h == g;
      assert forall s :: Covered(Field(name, s), us) <==> Leq(s, g.shape);
      assert (forall f <- all :: f.name == name ==> Covered(f, us)) <==> AllBelow(group, g.shape);
    } else {
      var f :| f in all && f.name == name;
      assert !Covered(f, us);
    }
  }

  lemma {:induction false} SliceBounds(slices: seq<Shape>, u: Shape)
    requires slices != [] && forall s <- slices :: s.Slice?
    requires UniqueNames(u)
    ensures AllBelow(slices, u) <==>
            MergeSliceElements(slices).Success? && Leq(MergeSliceElements(slices).value, u)
    decreases MaxDepth(slices), 1, 0
  {
    var elements := Elements(slices);
    ElementsDepth(slices);
    assert slices[0] in slices;
    AllBelowByElement(slices, u);
    if u.Slice? && u.element.Some? {
      MergeBounds(elements, u.element.value);
    }
  }

  lemma AllBelowByElement(slices: seq<Shape>, u: Shape)
    requires slices != [] && forall s <- slices :: s.Slice?
    ensures AllBelow(slices, u) <==>
            u.Slice? && if u.element.Some? then AllBelow(Elements(slices), u.element.value)
                        else Elements(slices) == []
  {
    ElementsMembers(slices);
    assert slices[0] in slices;
    if u.Slice? && u.element.None? && Elements(slices) != [] {
      assert Slice(Some(Elements(slices)[0])) in slices;
    }
    forall s <- slices | s.element.Some?
      ensures s.element.value in Elements(slices)
    {
      assert s == Slice(Some(s.element.value));
    }
  }

  /** Success gives a least upper bound; failure means that no type with distinct field
      names lies above all inputs. */
  lemma MergeIsLeastUpperBound(shapes: seq<Shape>)
    ensures var r := MergeShapes(shapes);
            if r.Success? then
              && UniqueNames(r.value)
              && AllBelow(shapes, r.value)
              && (forall u :: UniqueNames(u) && AllBelow(shapes, u) ==> Leq(r.value, u))
            else
              forall u :: UniqueNames(u) ==> !AllBelow(shapes, u)
  {
    match MergeShapes(shapes)
    case Success(m) =>
      MergeUnique(shapes);
      LeqReflexive(m);
      MergeBounds(shapes, m);
      forall u | UniqueNames(u) && AllBelow(shapes, u)
        ensures Leq(m, u)
      {
        MergeBounds(shapes, u);
      }
    case Failure(_) =>
      forall u | UniqueNames(u)
        ensures !AllBelow(shapes, u)
      {
        MergeBounds(shapes, u);
      }
  }

  ghost predicate Equivalent(a: Shape, b: Shape) {
    Leq(a, b) && Leq(b, a)
  }

  /** Only the set of inputs matters, up to equivalence: order and repetition do not. */
  lemma MergeIgnoresOrder(a: seq<Shape>, b: seq<Shape>)
    requires forall s :: s in a <==> s in b
    ensures MergeShapes(a).Success? <==> MergeShapes(b).Success?
    ensures MergeShapes(a).Success? ==> Equivalent(MergeShapes(a).value, MergeShapes(b).value)
  {
    MergeIsLeastUpperBound(a);
    MergeIsLeastUpperBound(b);
    assert forall u :: AllBelow(a, u) <==> AllBelow(b, u);
  }

  /** Merging in two groups first, and then the results, is merging everything at once. */
  lemma MergeIgnoresGrouping(a: seq<Shape>, b: seq<Shape>)
    ensures MergeShapes(a).Failure? || MergeShapes(b).Failure? ==> MergeShapes(a + b).Failure?
    ensures MergeShapes(a).Success? && MergeShapes(b).Success? ==>
              var two := MergeShapes([MergeShapes(a).value, MergeShapes(b).value]);
              && (two.Success? <==> MergeShapes(a + b).Success?)
              && (two.Success? ==> Equivalent(two.value, MergeShapes(a + b).value))
  {
    MergeIsLeastUpperBound(a + b);
    forall u | UniqueNames(u)
      ensures AllBelow(a + b, u) <==> AllBelow(a, u) && AllBelow(b, u)
      ensures AllBelow(a, u) <==> MergeShapes(a).Success? && Leq(MergeShapes(a).value, u)
      ensures AllBelow(b, u) <==> MergeShapes(b).Success? && Leq(MergeShapes(b).value, u)
    {
      MergeBounds(a, u);
      MergeBounds(b, u);
    }
    if MergeShapes(a).Success? && MergeShapes(b).Success? {
      var both := [MergeShapes(a).value, MergeShapes(b).value];
      MergeIsLeastUpperBound(both);
      assert forall u :: AllBelow(both, u) <==> Leq(both[0], u) && Leq(both[1], u);
    }
  }

  // ---------- merging a single type ----------

  lemma {:induction false} NamesInOrder(fields: seq<Field>)
    requires DistinctNames(fields)
    ensures |Names(fields)| == |fields| && forall i :: 0 <= i < |fields| ==> Names(fields)[i] == fields[i].name
  {
    if fields != [] {
      var k := |fields| - 1;
      NamesInOrder(fields[..k]);
      assert fields[k].name !in Names(fields[..k]);
    }
  }

  lemma {:induction false} GroupOfOne(fields: seq<Field>, i: nat)
    requires DistinctNames(fields) && i < |fields|
    ensures Group(fields, fields[i].name) == [fields[i].shape]
  {
    var k := |fields| - 1;
    if i < k {
      GroupOfOne(fields[..k], i);
    } else {
      NamesInOrder(fields[..k]);
      GroupOfAbsent(fields[..k], fields[k].name);
    }
  }

  /** A type with distinct field names is its own merge. */
  lemma {:induction false} MergeOfOne(s: Shape)
    requires UniqueNames(s)
    ensures MergeShapes([s]) == Success(s)
    decreases s, 1
  {
    assert [s][..0] == [];
    match s
    case Null =>
      assert FilterNonNull([s]) == [];
    case Scalar(_) =>
      assert FilterNonNull([s]) == [s];
    case Slice(element) =>
      assert FilterNonNull([s]) == [s] && MergeShapes([s]) == MergeSliceElements([s]);
      if element.Some? {
        assert Elements([s]) == [element.value];
        MergeOfOne(element.value);
      } else {
        assert Elements([s]) == [];
      }
    case Struct(fields) =>
      assert FilterNonNull([s]) == [s] && MergeShapes([s]) == MergeStructFields([s]);
      assert AllFields([s]) == fields;
      NamesInOrder(fields);
      GroupsOfOne(fields, |fields|);
      assert Names(fields)[..|fields|] == Names(fields) && fields[..|fields|] == fields;
  }

  lemma {:induction false} GroupsOfOne(fields: seq<Field>, k: nat)
    requires DistinctNames(fields) && (forall f <- fields :: UniqueNames(f.shape)) && k <= |fields|
    requires |Names(fields)| == |fields| && forall i :: 0 <= i < |fields| ==> Names(fields)[i] == fields[i].name
    ensures MergeGroups(fields, Names(fields)[..k]) == Success(fields[..k])
    decreases fields, k
  {
    var names := Names(fields)[..k];
    if k == 0 {
      assert names == [] && fields[..k] == [];
    } else {
      assert names[..k - 1] == Names(fields)[..k - 1] && names[k - 1] == fields[k - 1].name;
      assert fields[..k] == fields[..k - 1] + [Field(fields[k - 1].name, fields[k - 1].shape)];
      GroupsOfOne(fields, k - 1);
      GroupOfOne(fields, k - 1);
      MergeOfOne(fields[k - 1].shape);
      NextGroup(fields, names, fields[..k - 1], fields[k - 1].shape);
    }
  }

  lemma NextGroup(all: seq<Field>, names: seq<string>, init: seq<Field>, merged: Shape)
    requires names != [] && MergeGroups(all, names[..|names| - 1]) == Success(init)
    requires MergeShapes(Group(all, names[|names| - 1])) == Success(merged)
    ensures MergeGroups(all, names) == Success(init + [Field(names[|names| - 1], merged)])
  {
  }
}
