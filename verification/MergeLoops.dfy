/** The loops of the merge, proved to compute the functions of module Merge. */
module MergeLoops {
  import opened Wrappers
  import opened Shapes
  import M = Merge

  method FilterNonNull(shapes: seq<Shape>) returns (out: seq<Shape>)
    ensures out == M.FilterNonNull(shapes)
  {
    out := [];
    for i := 0 to |shapes|
      invariant out == M.FilterNonNull(shapes[..i])
    {
      assert shapes[..i + 1][..i] == shapes[..i];
      if !shapes[i].Null? {
        out := out + [shapes[i]];
      }
    }
    assert shapes[..|shapes|] == shapes;
  }

  method MergeShapes(shapes: seq<Shape>) returns (r: Result<Shape, M.MergeError>)
    ensures r == M.MergeShapes(shapes)
    decreases M.MaxDepth(shapes), 3, 0
  {
    var nonNull := FilterNonNull(shapes);
    M.FilterDepth(shapes);
    if |nonNull| == 0 {
      return Success(Null);
    }
    for i := 1 to |nonNull|
      invariant forall j :: 1 <= j < i ==> M.SameKind(nonNull[j], nonNull[0])
    {
      if !M.SameKind(nonNull[i], nonNull[0]) {
        assert nonNull[i] in nonNull;
        return Failure(M.MixedKinds);
      }
    }
    r := MergeByKind(nonNull);
  }

  method MergeByKind(shapes: seq<Shape>) returns (r: Result<Shape, M.MergeError>)
    requires M.OneKind(shapes)
    ensures r == M.MergeByKind(shapes)
    decreases M.MaxDepth(shapes), 2, 0
  {
    assert shapes[0] in shapes;
    match shapes[0]
    case Scalar(base) =>
      assert forall s <- shapes[1..] :: s in shapes;
      ghost var all := M.FirstMismatch(shapes[1..], base);
      for i := 1 to |shapes|
        invariant all == M.FirstMismatch(shapes[i..], base)
      {
        assert shapes[i..][1..] == shapes[i + 1..];
        if shapes[i].scalar != base {
          return Failure(M.MixedScalars(base, shapes[i].scalar));
        }
      }
      return Success(shapes[0]);
    case Struct(_) => r := MergeStructFields(shapes);
    case Slice(_) => r := MergeSliceElements(shapes);
  }

  /** What the two variables of the grouping loop hold after the fields in flat. */
  ghost predicate Grouped(flat: seq<Field>, order: seq<string>, groups: map<string, seq<Shape>>) {
    && order == M.Names(flat)
    && (forall n :: n in groups <==> n in order)
    && forall n <- groups :: groups[n] == M.Group(flat, n)
  }

  lemma GroupedStep(flat: seq<Field>, f: Field, order: seq<string>, groups: map<string, seq<Shape>>)
    requires Grouped(flat, order, groups)
    ensures Grouped(flat + [f],
                    if f.name in groups then order else order + [f.name],
                    groups[f.name := (if f.name in groups then groups[f.name] else []) + [f.shape]])
  {
    assert (flat + [f])[..|flat|] == flat;
    M.NamesMembers(flat);
    forall n | n !in groups
      ensures M.Group(flat, n) == []
    {
      M.GroupOfAbsent(flat, n);
    }
  }

  lemma OneMore(before: seq<Field>, fields: seq<Field>, j: nat)
    requires j < |fields|
    ensures before + fields[..j] + [fields[j]] == before + fields[..j + 1]
  {
  }

  method GroupFields(structs: seq<Shape>) returns (order: seq<string>, groups: map<string, seq<Shape>>)
    requires forall s <- structs :: s.Struct?
    ensures Grouped(M.AllFields(structs), order, groups)
  {
    order, groups := [], map[];
    for i := 0 to |structs|
      invariant Grouped(M.AllFields(structs[..i]), order, groups)
    {
      order, groups := GroupFieldsOf(structs[i].fields, M.AllFields(structs[..i]), order, groups);
      assert structs[..i + 1][..i] == structs[..i];
    }
    assert structs[..|structs|] == structs;
  }

  /** The inner loop, over the fields of one struct. */
  method GroupFieldsOf(fields: seq<Field>, ghost before: seq<Field>, order0: seq<string>, groups0: map<string, seq<Shape>>)
    returns (order: seq<string>, groups: map<string, seq<Shape>>)
    requires Grouped(before, order0, groups0)
    ensures Grouped(before + fields, order, groups)
  {
    order, groups := order0, groups0;
    assert before + fields[..0] == before;
    for j := 0 to |fields|
      invariant Grouped(before + fields[..j], order, groups)
    {
      var f := fields[j];
      GroupedStep(before + fields[..j], f, order, groups);
      OneMore(before, fields, j);
      if f.name !in groups {
        order, groups := order + [f.name], groups[f.name := [] + [f.shape]];
      } else {
        groups := groups[f.name := groups[f.name] + [f.shape]];
      }
    }
    assert fields[..|fields|] == fields;
  }

  method MergeStructFields(structs: seq<Shape>) returns (r: Result<Shape, M.MergeError>)
    requires structs != [] && forall s <- structs :: s.Struct?
    ensures r == M.MergeStructFields(structs)
    decreases M.MaxDepth(structs), 1, 0
  {
    var order, groups := GroupFields(structs);
    M.AllFieldsDepth(structs);
    var fields :- MergeGroups(order, groups, M.AllFields(structs));
    return Success(Struct(fields));
  }

  /** The loop over the names in order. */
  method MergeGroups(order: seq<string>, groups: map<string, seq<Shape>>, ghost all: seq<Field>)
    returns (r: Result<seq<Field>, M.MergeError>)
    requires forall n <- order :: n in groups && groups[n] == M.Group(all, n)
    ensures r == M.MergeGroups(all, order)
    decreases M.FieldsDepth(all), 5, 0
  {
    var fields := [];
    for i := 0 to |order|
      invariant M.MergeGroups(all, order[..i]) == Success(fields)
    {
      var name := order[i];
      M.GroupDepth(all, name);
      assert order[..i + 1][..i] == order[..i];
      var merged := MergeShapes(groups[name]);
      if merged.Failure? {
        GroupsFailEarly(all, order, i + 1);
        return Failure(M.InField(name, merged.error));
      }
      fields := fields + [Field(name, merged.value)];
    }
    assert order[..|order|] == order;
    return Success(fields);
  }

  lemma {:induction false} GroupsFailEarly(all: seq<Field>, names: seq<string>, i: nat)
    requires i <= |names| && M.MergeGroups(all, names[..i]).Failure?
    ensures M.MergeGroups(all, names) == M.MergeGroups(all, names[..i])
    decreases |names| - i
  {
    if i < |names| {
      assert names[..i + 1][..i] == names[..i];
      GroupsFailEarly(all, names, i + 1);
    } else {
      assert names[..i] == names;
    }
  }

  method MergeSliceElements(slices: seq<Shape>) returns (r: Result<Shape, M.MergeError>)
    requires slices != [] && forall s <- slices :: s.Slice?
    ensures r == M.MergeSliceElements(slices)
    decreases M.MaxDepth(slices), 1, 0
  {
    var elements := [];
    for i := 0 to |slices|
      invariant elements == M.Elements(slices[..i])
    {
      assert slices[..i + 1][..i] == slices[..i];
      if slices[i].element.Some? {
        elements := elements + [slices[i].element.value];
      }
    }
    assert slices[..|slices|] == slices;
    M.ElementsDepth(slices);
    if |elements| == 0 {
      return Success(Slice(None));
    }
    var merged :- MergeShapes(elements);
    return Success(Slice(Some(merged)));
  }
}
