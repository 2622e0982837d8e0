/** The loops of the inference and of the shape comparison, proved to compute the functions of
    modules Infer and SameShapes. */
module InferLoops {
  import opened Wrappers
  import opened Shapes
  import I = Infer
  import Merge
  import MergeLoops
  import Same = SameShapes

  method InferNode(d: Doc) returns (r: Result<Shape, I.InferError>)
    ensures r == I.InferNode(d)
    decreases d
  {
    match d
    case NullDoc => return Success(Null);
    case ScalarDoc(kind) => return Success(Scalar(I.ScalarName(kind)));
    case SequenceDoc(items) => r := InferSequence(items);
    case MappingDoc(entries) => r := InferMapping(entries);
    case UnsupportedDoc => return Failure(I.Unsupported);
  }

  method InferMapping(entries: seq<Entry>) returns (r: Result<Shape, I.InferError>)
    ensures r == I.InferNode(MappingDoc(entries))
    decreases entries
  {
    var fields := [];
    for i := 0 to |entries|
      invariant I.InferEntries(entries[..i]) == Success(fields)
    {
      assert entries[..i + 1][..i] == entries[..i];
      var field := InferEntry(entries[i]);
      if field.Failure? {
        EntriesFailEarly(entries, i + 1);
        return Failure(field.error);
      }
      fields := fields + [field.value];
    }
    assert entries[..|entries|] == entries;
    return Success(Struct(fields));
  }

  /** The body of the loop over a mapping. */
  method InferEntry(e: Entry) returns (r: Result<Field, I.InferError>)
    ensures r == I.InferEntry(e)
    decreases e
  {
    if !e.key.StringKey? {
      return Failure(I.NonStringKey);
    }
    var shape := InferNode(e.value);
    if shape.Failure? {
      return Failure(I.AtField(e.key.name, shape.error));
    }
    return Success(Field(e.key.name, shape.value));
  }

  lemma {:induction false} EntriesFailEarly(entries: seq<Entry>, i: nat)
    requires i <= |entries| && I.InferEntries(entries[..i]).Failure?
    ensures I.InferEntries(entries) == I.InferEntries(entries[..i])
    decreases |entries| - i
  {
    if i < |entries| {
      assert entries[..i + 1][..i] == entries[..i];
      EntriesFailEarly(entries, i + 1);
    } else {
      assert entries[..i] == entries;
    }
  }

  method InferSequence(items: seq<Doc>) returns (r: Result<Shape, I.InferError>)
    ensures r == I.InferNode(SequenceDoc(items))
    decreases items
  {
    if |items| == 0 {
      return Success(Slice(None));
    }
    var elements := [];
    for i := 0 to |items|
      invariant I.InferItems(items[..i]) == Success(elements)
    {
      assert items[..i + 1][..i] == items[..i];
      var shape := InferNode(items[i]);
      if shape.Failure? {
        ItemsFailEarly(items, i + 1);
        return Failure(I.AtElement(i, shape.error));
      }
      elements := elements + [shape.value];
    }
    assert items[..|items|] == items;
    var merged := MergeLoops.MergeShapes(elements);
    if merged.Failure? {
      return Failure(I.Heterogeneous(merged.error));
    }
    return Success(Slice(Some(merged.value)));
  }

  lemma {:induction false} ItemsFailEarly(items: seq<Doc>, i: nat)
    requires i <= |items| && I.InferItems(items[..i]).Failure?
    ensures I.InferItems(items) == I.InferItems(items[..i])
    decreases |items| - i
  {
    if i < |items| {
      assert items[..i + 1][..i] == items[..i];
      ItemsFailEarly(items, i + 1);
    } else {
      assert items[..i] == items;
    }
  }

  method UnionThemes(themes: seq<I.Theme>) returns (r: Result<Option<Shape>, I.InferError>)
    ensures r == I.UnionThemes(themes)
  {
    var shapes := [];
    for i := 0 to |themes|
      invariant I.InferThemes(themes[..i]) == Success(shapes)
    {
      assert themes[..i + 1][..i] == themes[..i];
      var shape: Result<Shape, I.InferError> := Success(Struct([]));
      if themes[i].Some? {
        shape := InferNode(themes[i].value);
      }
      if shape.Failure? {
        ThemesFailEarly(themes, i + 1);
        return Failure(shape.error);
      }
      shapes := shapes + [shape.value];
    }
    assert themes[..|themes|] == themes;
    if |shapes| == 0 {
      return Success(None);
    }
    var merged := MergeLoops.MergeShapes(shapes);
    if merged.Failure? {
      return Failure(I.Heterogeneous(merged.error));
    }
    return Success(Some(merged.value));
  }

  lemma {:induction false} ThemesFailEarly(themes: seq<I.Theme>, i: nat)
    requires i <= |themes| && I.InferThemes(themes[..i]).Failure?
    ensures I.InferThemes(themes) == I.InferThemes(themes[..i])
    decreases |themes| - i
  {
    if i < |themes| {
      assert themes[..i + 1][..i] == themes[..i];
      ThemesFailEarly(themes, i + 1);
    } else {
      assert themes[..i] == themes;
    }
  }

  // ---------- sameShape ----------

  method SameShape(a: Shape, b: Shape) returns (r: bool)
    ensures r == Same.SameShape(a, b)
    decreases a
  {
    if !Merge.SameKind(a, b) {
      return false;
    }
    match a
    case Null => return false;
    case Scalar(name) => return name == b.scalar;
    case Slice(element) =>
      if element.None? || b.element.None? {
        return true;
      }
      r := SameShape(element.value, b.element.value);
    case Struct(fields) =>
      if |fields| != |b.fields| {
        return false;
      }
      r := IsSubset(fields, b.fields);
  }

  /** The table lookup loops shared by sameStruct and isSubsetStruct. */
  method IsSubset(small: seq<Field>, large: seq<Field>) returns (r: bool)
    ensures r == Same.IsSubset(small, large)
    decreases small
  {
    var byName: map<string, Shape> := map[];
    for i := 0 to |large|
      invariant forall n :: n in byName <==> Same.LastNamed(large[..i], n).Some?
      invariant forall n <- byName :: Same.LastNamed(large[..i], n) == Some(byName[n])
    {
      assert large[..i + 1][..i] == large[..i];
      byName := byName[large[i].name := large[i].shape];
    }
    assert large[..|large|] == large;
    for i := 0 to |small|
      invariant forall j :: 0 <= j < i ==> Same.Matched(small[j], large)
    {
      var same := false;
      if small[i].name in byName {
        same := MatchField(small[i], byName[small[i].name]);
      }
      if !same {
        assert small[i] in small && !Same.Matched(small[i], large);
        return false;
      }
    }
    return true;
  }

  /** One step of the second loop. */
  method MatchField(f: Field, other: Shape) returns (r: bool)
    ensures r == Same.SameShape(f.shape, other)
    decreases f
  {
    r := SameShape(f.shape, other);
  }
}
