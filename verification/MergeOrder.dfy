/** The order of merged fields, elements and themes: everything stands where its input has it first
    (cmd/themegen/config_infer.go). */
module MergeOrder {
  import opened Wrappers
  import opened Shapes
  import opened Merge
  import Infer

  /** The name appears first as field i of type k. */
  ghost predicate FirstAt(shapes: seq<Shape>, name: string, k: nat, i: nat) {
    && k < |shapes| && shapes[k].Struct? && i < |shapes[k].fields| && shapes[k].fields[i].name == name
    && (forall j :: 0 <= j < i ==> shapes[k].fields[j].name != name)
    && forall j :: 0 <= j < k && shapes[j].Struct? ==> !Occurs(shapes[j].fields, name)
  }

  // ---------- the pieces, one after the other ----------

  lemma {:induction false} FilteredAt(shapes: seq<Shape>, k: nat)
    requires k < |shapes| && !shapes[k].Null?
    ensures var at := |FilterNonNull(shapes[..k])|;
            at < |FilterNonNull(shapes)| && FilterNonNull(shapes)[at] == shapes[k]
    decreases |shapes|
  {
    var n := |shapes| - 1;
    if k < n {
      FilteredAt(shapes[..n], k);
      assert shapes[..n][..k] == shapes[..k];
    }
  }

  lemma {:induction false} FilteredEarlier(shapes: seq<Shape>, j: nat, k: nat)
    requires j < k <= |shapes| && !shapes[j].Null?
    ensures |FilterNonNull(shapes[..j])| < |FilterNonNull(shapes[..k])|
    decreases k
  {
    assert shapes[..k][..k - 1] == shapes[..k - 1];
    if j < k - 1 {
      FilteredEarlier(shapes, j, k - 1);
    }
  }

  /** What stands before place |FilterNonNull(shapes[..k])| comes from what stands before k. */
  lemma {:induction false} FilteredBefore(shapes: seq<Shape>, k: nat, m: nat)
    requires k <= |shapes| && m < |FilterNonNull(shapes[..k])|
    ensures m < |FilterNonNull(shapes)| && FilterNonNull(shapes)[m] in shapes[..k]
    ensures FilterNonNull(shapes)[m] == FilterNonNull(shapes[..k])[m]
    decreases |shapes|
  {
    if k == |shapes| {
      assert shapes[..k] == shapes;
      FilterMembers(shapes);
    } else {
      var n := |shapes| - 1;
      assert shapes[..n][..k] == shapes[..k];
      FilteredBefore(shapes[..n], k, m);
    }
  }

  /** The known elements of slices, one after the other. */
  lemma {:induction false} ElementsAt(slices: seq<Shape>, k: nat)
    requires (forall s <- slices :: s.Slice?) && k < |slices| && slices[k].element.Some?
    ensures var at := |Elements(slices[..k])|;
            at < |Elements(slices)| && Elements(slices)[at] == slices[k].element.value
    decreases |slices|
  {
    var n := |slices| - 1;
    if k < n {
      ElementsAt(slices[..n], k);
      assert slices[..n][..k] == slices[..k];
    }
  }

  lemma {:induction false} FirstIndexJoined(a: seq<Field>, b: seq<Field>, name: string)
    ensures FirstIndex(a + b, name) == if Occurs(a, name) then FirstIndex(a, name) else |a| + FirstIndex(b, name)
  {
    if a == [] {
      assert a + b == b;
    } else {
      assert (a + b)[1..] == a[1..] + b;
      FirstIndexJoined(a[1..], b, name);
      assert a == [a[0]] + a[1..];
    }
  }

  /** Where a name first appears among all fields. */
  lemma {:induction false} FirstIndexAt(structs: seq<Shape>, name: string, k: nat, i: nat)
    requires (forall s <- structs :: s.Struct?) && FirstAt(structs, name, k, i)
    ensures FirstIndex(AllFields(structs), name) == |AllFields(structs[..k])| + i
    decreases |structs|
  {
    var n := |structs| - 1;
    FirstIndexJoined(AllFields(structs[..n]), structs[n].fields, name);
    AllFieldsMembers(structs[..n]);
    if k < n {
      assert structs[..n][..k] == structs[..k];
      FirstIndexAt(structs[..n], name, k, i);
      assert structs[..n][k].fields[i] in structs[..n][k].fields && structs[..n][k] in structs[..n];
    }
  }

  lemma {:induction false} FieldsGrow(structs: seq<Shape>, j: nat, k: nat)
    requires (forall s <- structs :: s.Struct?) && j < k <= |structs|
    ensures |AllFields(structs[..j])| + |structs[j].fields| <= |AllFields(structs[..k])|
    decreases k
  {
    assert structs[..k][..k - 1] == structs[..k - 1];
    if j < k - 1 {
      FieldsGrow(structs, j, k - 1);
    }
  }

  lemma StructOrder(structs: seq<Shape>, a: string, k: nat, i: nat, b: string, k': nat, i': nat)
    requires (forall s <- structs :: s.Struct?) && FirstAt(structs, a, k, i) && FirstAt(structs, b, k', i')
    ensures FirstIndex(AllFields(structs), a) < FirstIndex(AllFields(structs), b) <==> k < k' || (k == k' && i < i')
  {
    FirstIndexAt(structs, a, k, i);
    FirstIndexAt(structs, b, k', i');
    if k < k' {
      FieldsGrow(structs, k, k');
    } else if k' < k {
      FieldsGrow(structs, k', k);
    }
  }

  // ---------- merged fields ----------

  lemma FilteredFirst(shapes: seq<Shape>, name: string, k: nat, i: nat)
    requires FirstAt(shapes, name, k, i) && forall s <- FilterNonNull(shapes) :: s.Struct?
    ensures FirstAt(FilterNonNull(shapes), name, |FilterNonNull(shapes[..k])|, i)
  {
    var at := |FilterNonNull(shapes[..k])|;
    FilteredAt(shapes, k);
    forall j | 0 <= j < at
      ensures !Occurs(FilterNonNull(shapes)[j].fields, name)
    {
      FilteredBefore(shapes, k, j);
      var m :| 0 <= m < k && shapes[m] == FilterNonNull(shapes)[j];
    }
  }

  /** Of two fields of a merged struct the one comes first whose name appears first: in an earlier type, or
      earlier in the same one. */
  lemma MergedInOrder(shapes: seq<Shape>, p: nat, q: nat, k: nat, i: nat, k': nat, i': nat)
    requires MergeShapes(shapes).Success? && MergeShapes(shapes).value.Struct?
    requires var fields := MergeShapes(shapes).value.fields;
             && p < |fields| && q < |fields|
             && FirstAt(shapes, fields[p].name, k, i) && FirstAt(shapes, fields[q].name, k', i')
    ensures p < q <==> k < k' || (k == k' && i < i')
  {
    var structs := FilterNonNull(shapes);
    MergedFromStructs(shapes);
    var fields := MergeShapes(shapes).value.fields;
    FilteredFirst(shapes, fields[p].name, k, i);
    FilteredFirst(shapes, fields[q].name, k', i');
    StructOrder(structs, fields[p].name, |FilterNonNull(shapes[..k])|, i, fields[q].name, |FilterNonNull(shapes[..k'])|, i');
    MergedOrder(structs);
    if k < k' {
      FilteredEarlier(shapes, k, k');
    } else if k' < k {
      FilteredEarlier(shapes, k', k);
    }
  }

  lemma MixedFails(shapes: seq<Shape>, s: Shape)
    requires s in FilterNonNull(shapes) && !SameKind(s, FilterNonNull(shapes)[0])
    ensures MergeShapes(shapes) == Failure(MixedKinds)
  {
  }

  lemma MergedFromStructs(shapes: seq<Shape>)
    requires MergeShapes(shapes).Success? && MergeShapes(shapes).value.Struct?
    ensures var structs := FilterNonNull(shapes);
            structs != [] && (forall s <- structs :: s.Struct?) && MergeShapes(shapes) == MergeStructFields(structs)
  {
    var structs := FilterNonNull(shapes);
    FilterMembers(shapes);
    assert structs != [] && structs[0] in structs;
    forall s <- structs
      ensures SameKind(s, structs[0])
    {
      if !SameKind(s, structs[0]) {
        MixedFails(shapes, s);
      }
    }
    assert MergeShapes(shapes) == MergeByKind(structs) && structs[0].Struct?;
  }

  // ---------- inference ----------

  /** Items, entries and themes are inferred in order. */
  lemma {:induction false} ItemsInOrder(items: seq<Doc>, k: nat)
    requires Infer.InferItems(items).Success? && k < |items|
    ensures Infer.InferNode(items[k]) == Success(Infer.InferItems(items).value[k])
  {
    if k < |items| - 1 {
      ItemsInOrder(items[..|items| - 1], k);
    }
  }

  lemma {:induction false} EntriesInOrder(entries: seq<Entry>, k: nat)
    requires Infer.InferEntries(entries).Success? && k < |entries|
    ensures var f := Infer.InferEntries(entries).value[k];
            entries[k].key == StringKey(f.name) && Infer.InferNode(entries[k].value) == Success(f.shape)
  {
    if k < |entries| - 1 {
      EntriesInOrder(entries[..|entries| - 1], k);
    }
  }

  lemma {:induction false} ThemesInOrder(themes: seq<Infer.Theme>, k: nat)
    requires Infer.InferThemes(themes).Success? && k < |themes|
    ensures var shape := Infer.InferThemes(themes).value[k];
            if themes[k].Some? then Infer.InferNode(themes[k].value) == Success(shape) else shape == Struct([])
  {
    if k < |themes| - 1 {
      ThemesInOrder(themes[..|themes| - 1], k);
    }
  }
}
